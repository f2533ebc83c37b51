/** Limits and errors shared by package verification. */
module PackageLimits {

  const MAX_PAYLOAD_FILES := 4096
  const MAX_PAYLOAD_FILE_BYTES := 256 * 1024 * 1024
  const MAX_TOTAL_PAYLOAD_BYTES := 512 * 1024 * 1024

  /** What a limit error names. */
  datatype Bound = PayloadFiles | PayloadFileBytes | TotalPayloadBytes | PayloadTotal | ManifestBytes | InventoryBytes

  datatype PackageError = Io | InvalidArchive | InvalidMetadata | Limit(bound: Bound)
}
