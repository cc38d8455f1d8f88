/** Process-wide settings of main.go. */
module Settings {
  /** maxConcurrent: the number of download slots. */
  const MaxConcurrent: nat := 2

  /** The informational file every remote directory publishes and that is
      neither mirrored nor deleted. */
  const Sentinel: string := "systeminfo.txt"
}
