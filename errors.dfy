/** The exceptions the zone computation can raise. */
module Errors {

  datatype Error =
    // `parseOffsetString` found no `±dd:dd` in its argument
    | UnparsableOffset(text: string)
    // `convertTimeZoneToLocalTime` got an undefined or empty offset string
    | MissingOffset(zone: string)
    // the locale formatter rejected the zone identifier
    | NameUnavailable(zone: string)
    // the viewer's own offset string was undefined, so `.match` was called on undefined
    | LocalOffsetUnavailable
}
