/** The EFI_STATUS values that the modelled functions return. */
module Efi {

  datatype Status =
    | Success
    | InvalidParameter
    | BadBufferSize
    | NotReady
    | DeviceError
    | WriteProtected
    | OutOfResources
    | VolumeCorrupted
    | NotFound
    | AccessDenied
    | Timeout
    | Unsupported
    | CompromisedData
}
