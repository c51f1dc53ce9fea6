/** The OpenAL device stubs: opening a device by optional name, closing it, and
    mapping the ALC error code of a device to the host's error variant. The
    native calls `alcOpenDevice`, `alcCloseDevice` and `alcGetError` are taken
    as function-valued parameters. */
module AlcDevice {

  datatype Option<T> = None | Some(value: T)

  /** The ALC error enum values of OpenAL 1.1 (`ALCenum` is a C `int`). */
  const ALC_NO_ERROR: int := 0
  const ALC_INVALID_DEVICE: int := 0xA001
  const ALC_INVALID_CONTEXT: int := 0xA002
  const ALC_INVALID_ENUM: int := 0xA003
  const ALC_INVALID_VALUE: int := 0xA004
  const ALC_OUT_OF_MEMORY: int := 0xA005

  /** The values of `ALCboolean` (a C `char`). */
  const ALC_FALSE: int := 0
  const ALC_TRUE: int := 1

  /** The host's device error variant; the stubs hand over its constructor
      index. */
  datatype DeviceError =
    | NoError
    | InvalidDevice
    | InvalidContext
    | InvalidEnum
    | InvalidValue
    | OutOfMemory

  /** The constructor index of an error variant. */
  function ErrorIndex(e: DeviceError): (index: nat)
    ensures index <= 5
    ensures index == 0 <==> e == NoError
  {
    match e
    case NoError => 0
    case InvalidDevice => 1
    case InvalidContext => 2
    case InvalidEnum => 3
    case InvalidValue => 4
    case OutOfMemory => 5
  }

  /** The ALC enum value that stands for an error variant. */
  function NativeCode(e: DeviceError): int
  {
    match e
    case NoError => ALC_NO_ERROR
    case InvalidDevice => ALC_INVALID_DEVICE
    case InvalidContext => ALC_INVALID_CONTEXT
    case InvalidEnum => ALC_INVALID_ENUM
    case InvalidValue => ALC_INVALID_VALUE
    case OutOfMemory => ALC_OUT_OF_MEMORY
  }

  /** The six ALC codes of the table. */
  const MappedCodes: set<int> :=
    {ALC_NO_ERROR, ALC_INVALID_DEVICE, ALC_INVALID_CONTEXT,
     ALC_INVALID_ENUM, ALC_INVALID_VALUE, ALC_OUT_OF_MEMORY}

  /** An ALC code that is none of the six in the table. */
  predicate Unmapped(error: int)
  {
    error !in MappedCodes
  }

  /** The table's codes are exactly the codes of the six variants. */
  lemma MappedCodesAreVariantCodes(error: int)
    ensures !Unmapped(error) <==> exists e: DeviceError :: error == NativeCode(e)
  {
    if !Unmapped(error) {
      if error == ALC_NO_ERROR { assert error == NativeCode(NoError); }
      else if error == ALC_INVALID_DEVICE { assert error == NativeCode(InvalidDevice); }
      else if error == ALC_INVALID_CONTEXT { assert error == NativeCode(InvalidContext); }
      else if error == ALC_INVALID_ENUM { assert error == NativeCode(InvalidEnum); }
      else if error == ALC_INVALID_VALUE { assert error == NativeCode(InvalidValue); }
      else { assert error == NativeCode(OutOfMemory); }
    }
  }

  /** `Val_alcerror`: the index handed to the host for a native ALC code. Each
      of the six codes gives the index of its variant; any other code gives 0,
      the index of NoError. */
  function ValAlcError(error: int): (index: nat)
    ensures index <= 5
    ensures forall e: DeviceError :: error == NativeCode(e) ==> index == ErrorIndex(e)
    ensures Unmapped(error) ==> index == 0
  {
    if error == ALC_NO_ERROR then 0
    else if error == ALC_INVALID_DEVICE then 1
    else if error == ALC_INVALID_CONTEXT then 2
    else if error == ALC_INVALID_ENUM then 3
    else if error == ALC_INVALID_VALUE then 4
    else if error == ALC_OUT_OF_MEMORY then 5
    else 0
  }

  /** Every index but 0 comes from exactly one native code: the code of the
      variant with that index. */
  lemma NonZeroIndexHasOneCode(error: int, e: DeviceError)
    requires e != NoError
    ensures ValAlcError(error) == ErrorIndex(e) <==> error == NativeCode(e)
  {
  }

  /** Index 0 comes from ALC_NO_ERROR or from any code outside the table. */
  lemma ZeroIndexIsNoErrorOrUnmapped(error: int)
    ensures ValAlcError(error) == 0 <==> error == ALC_NO_ERROR || Unmapped(error)
  {
  }

  /** The C string handed to `alcOpenDevice`: NULL, which asks for the platform
      default device, or the characters of a device name. */
  datatype DeviceNameArg = Null | CString(chars: string)

  /** The device-name argument `caml_alc_open_device` builds from the host's
      optional name. */
  function DeviceNameArgument(devName: Option<string>): (arg: DeviceNameArg)
    ensures arg == Null <==> devName == None
    ensures forall name :: devName == Some(name) ==> arg == CString(name)
  {
    match devName
    case None => Null
    case Some(name) => CString(name)
  }

  /** The optional name a device-name argument was built from. */
  function DeviceNameOf(arg: DeviceNameArg): Option<string>
  {
    match arg
    case Null => None
    case CString(name) => Some(name)
  }

  /** No name is lost or altered on the way to the native call. */
  lemma DeviceNameRoundTrip(devName: Option<string>, arg: DeviceNameArg)
    ensures DeviceNameOf(DeviceNameArgument(devName)) == devName
    ensures DeviceNameArgument(DeviceNameOf(arg)) == arg
  {
  }

  /** A device handle: the address of an `ALCdevice`, 0 being NULL. */
  datatype DeviceHandle = DeviceHandle(address: nat)

  /** `caml_alc_open_device`: the handle the native open returns for the
      device-name argument, handed back unchecked (NULL included). */
  function OpenDevice(devName: Option<string>, alcOpenDevice: DeviceNameArg -> DeviceHandle): (device: DeviceHandle)
    ensures devName == None ==> device == alcOpenDevice(Null)
    ensures forall name :: devName == Some(name) ==> device == alcOpenDevice(CString(name))
  {
    alcOpenDevice(DeviceNameArgument(devName))
  }

  /** `caml_alc_close_device`: true exactly when the native close returns
      ALC_TRUE; ALC_FALSE and every other `ALCboolean` value give false. */
  function CloseDevice(device: DeviceHandle, alcCloseDevice: DeviceHandle -> int): (closed: bool)
    ensures closed <==> alcCloseDevice(device) == ALC_TRUE
    ensures alcCloseDevice(device) == ALC_FALSE ==> !closed
  {
    alcCloseDevice(device) == ALC_TRUE
  }

  /** `caml_alc_error`: the table applied to the one native error value of the
      device; the index is that of the variant whose code it is, and 0 when the
      code is outside the table. */
  function DeviceErrorIndex(device: DeviceHandle, alcGetError: DeviceHandle -> int): (index: nat)
    ensures index <= 5
    ensures forall e: DeviceError :: alcGetError(device) == NativeCode(e) ==> index == ErrorIndex(e)
    ensures Unmapped(alcGetError(device)) ==> index == 0
  {
    ValAlcError(alcGetError(device))
  }
}
