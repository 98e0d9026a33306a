/** How the file system answers the writes of a save. */
module FileWrites {
  /**
   Whether `backup_file` gets as far as creating the backup and how many bytes its one `write`
   stores; whether the current file can be opened for writing and how much of the text it takes.
   */
  datatype Writes = Writes(started: bool, stored: nat, canOpen: bool, written: nat)

  /** As much of a text as `n` bytes hold. */
  function Taken(text: string, n: nat): (t: string)
    ensures t <= text
    ensures n >= |text| ==> t == text
  {
    if n < |text| then text[..n] else text
  }
}
