/** Errors of the address-book owner. */
module AddressBookErrors {

  datatype Error =
    | InvalidHostname
    | InvalidDestination
    | UnknownHostname
    | BookFull
    | MixedShapes
    | MalformedField
    | InvalidSubscription
    | TooManySubscriptions
    | BodyOverBound
    | ListOverBound
    | UnknownConfigKey
    | InvalidConfigValue
    | PathEscape
    | InvalidGeneration
}
