# PSM configuration store: model and proofs

PSM keeps the persistent settings of a gateway. This project models the parts of it whose
correctness rests on more than one routine, and proves what they are for.

- **The record store and the boot-time merge** (`CStrings`, `RecordText`, `RecordParser`,
  `ConfigText`, `RecordChains`, `RecordTable`, `ConfigMerge`, `SurvivingRecords`, `LongLines`,
  `ConfigStore`, with the laws of `LineLaws`, `FileLaws`, `ImportedParams` and `BootLaws`).
  `RecordText` says what a `<Record ...>` line means; `RecordParser` is the parser that cuts its
  own line buffer and is proved to compute that. `RecordChains` is the hash table as a value, and
  the class `RecordTable.RecHash` is the linked table that is relinked in place. `ConfigText` is
  the file: lines of at most 4095 characters, and the flush with its growing buffer;
  `SurvivingRecords` says exactly which records come through it, and `LongLines` what becomes of
  the others. `ConfigMerge` says which source
  each record comes from after a boot and that a second boot changes nothing;
  `ConfigStore.ConfigStore` runs the boot on the linked table.
  `BootLaws` and `ImportedParams` tell which value a boot and an import give a name by the texts
  and lists themselves; `LineLaws` and `FileLaws` tell lines, hash, order and room by characters
  and numbers.
- **The crash-tolerant save and recovery** (`FileWrites`, `CrashProtocol`, `CrashFiles`). A trace
  lists the disk after every byte written; power may fail between any two entries, in recovery too.
- **The dirty flag and the delayed flush** (`FlushMachine`, `SysRegistry`, `RegistryLaws`). A state
  machine over whole runs, the object whose methods make its steps, and what the steps do name by name.
- **Name enumeration** (`NameListing`).
- **Value codecs** (`Numbers`, `ValueCodecs`, `MacCalendar`, `ValueLaws` for what the texts mean;
  `ValueDecoders`, `ValueBuffers` for the routines that overwrite separators, fill arrays in a
  second pass, or print into buffers of a fixed size).
- **The folder tree as XML and back** (`RecordXml`, `FolderTree`, `SaveAndLoad` on values, `NodeLaws`
  and `FolderLaws` node by node;
  `RecordIO`, `Translator`, `FileLoader` on the mutable document `XmlNodes.XmlNode` and on the
  repository `FolderRepository.Repository` with its open handles; `FolderPaths` for paths).

Functions state meaning, methods are the source's loops and updates, and each method's
postcondition ties it to the function. `dafny verify dfyconfig.toml` checks everything.

Results about the code as it stands, each with the condition under which it does what it is for:

- Whether a save is safe at every step depends on the backup, whose result the save ignores:
  `CrashProtocol.SaveIsSafeIff`. A short or refused backup followed by a power failure can lose
  both files (`CrashProtocol.ShortBackupLosesBoth`, `CrashProtocol.RefusedBackupLosesBoth`).
- The delayed flush loses no change in any run of the program (`FlushMachine.ProgramRuns`): it
  engages a new object once, opens its bus afterwards (source/Ssp/ssp_main.c:441, :500-505) and
  removes the object after cancelling it (:196-197, :418-419, :543-544). The object's interface
  allows more: engaging with saving blocked loses a change exactly when no flush is due and the
  registry holds a name that the file does not (`FlushMachine.EngageCleanIff`), and a reload
  leads to lost changes exactly when the object is not active (`FlushMachine.ReloadSoundIff`). The two
  losing runs shown (`FlushMachine.EngageLosesARecord`, `FlushMachine.ReloadLosesARecord`) are
  runs of the interface; this program does not make them.
- Integers above 2147483647 do not survive an integer list: `ValueCodecs.IntsRoundTripIff`. This
  rests on an `atoi` that saturates at the ends of a 4-byte `long`; the C standard leaves the
  overflow open, and a C library with a longer `long` that cuts the result to 32 bits would
  bring the numbers back.
- A record survives the file if and only if the line format can carry it, it holds no newline or
  NUL, and its printed line is at most 4096 characters long, newline included
  (`SurvivingRecords.FlushRoundTripIff`, `SurvivingRecords.TableRoundTripIff`). Of the records
  that came from a file, those that are longer are dropped (`LongLines.FileRecordsFate`; the
  printer adds quotes, so a line of 4095 characters can turn into a longer one,
  `LongLines.BareLineIsLost`). A long bootstrap value can instead come back, on the second boot,
  as another value cut out of its own text (`LongLines.SecondBootReplacesValue`).

Which pair of routines reads and saves the files is decided when the program is built: with
`USE_PLATFORM_SPECIFIC_HAL`, which source/include/psm_hal_apis.h:78 defines, `ssp_CfmReadCurConfig`
and `ssp_CfmSaveCurConfig` are installed (source/Ssp/ssp_main.c:482-498), and the pair of
source/PsmSysRegistry/psm_sysro_cfmif.c that `CrashProtocol` is about is used only without it.

Two readings are taken for granted: `strcmp_s` with indicator 0 means that two strings are equal
(all compared here are non-empty), and the numbers of the content types are their positions in
the legacy table (source/PsmFileLoader/psm_flo_parse.c:101-105).

The loader's log line for an unknown child node says that the node is ignored; the code goes
round its loop without advancing (source/PsmFileLoader/psm_flo_parse.c:2129-2134), so the model
asks for documents of folders and records, and `SaveAndLoad.WrittenTagged` proves that the
writer makes no others.

## Model

| member | source | states |
|---|---|---|
| RecordText.ParseYieldsClean | source/Ssp/ssp_cfmif.c:205-257 | every record the parser accepts from any line has a name and type, no delimiter or `>` in a field, and no closing tag in its value |
| RecordText.CloseTagAtEndOfValue | source/Ssp/ssp_cfmif.c:235-238 | `</Record>` has no border: behind a value without it, the first match is at the value's end |
| RecordText.CleanRoundTrip | source/Ssp/ssp_cfmif.c:205-276 | a printed record is read back whatever follows it on the line |
| RecordText.RoundTripIff | source/Ssp/ssp_cfmif.c:205-276 | print then parse gives a record back (NULL value as empty) if and only if the line format can carry it |
| RecordText.ParserNormalForm | source/Ssp/ssp_cfmif.c:205-276 | for every accepted line, printing the record and parsing again gives the same record |
| LineLaws.ValueLine | source/Ssp/ssp_cfmif.c:205-257 | for every line whose tag is words apart by blanks, tabs, carriage returns or newlines: each attribute is that of the last word with its key, without a quote at either end, in any order and among any other words; the value is all up to the first closing tag; without a name or type, or with an empty one, there is no record |
| LineLaws.ClosedLine | source/Ssp/ssp_cfmif.c:230-233 | the same for a tag that ends in '/', with or without a blank before it: the value is NULL, whatever follows |
| LineLaws.NoOpeningTag | source/Ssp/ssp_cfmif.c:212-213 | a line without an opening tag is rejected |
| LineLaws.UnendedTag | source/Ssp/ssp_cfmif.c:227-228 | so is one whose tag does not end |
| LineLaws.NoClosingTag | source/Ssp/ssp_cfmif.c:234-237 | so is one without a closing tag, unless its tag ends in '/' |
| LineLaws.PrintedText | source/Ssp/ssp_cfmif.c:260-276 | the printed line, character for character |
| RecordParser.RemoveQuotes | source/Ssp/ssp_cfmif.c:127-141 | one quote at each end is dropped, each on its own, by moving the pointer and writing a NUL inside the string |
| RecordParser.ScanAttributes | source/Ssp/ssp_cfmif.c:241-253 | the in-place tokeniser leaves pointers to exactly the fields that the tokens of the tag set, the last of each kind winning |
| RecordParser.RecordParse | source/Ssp/ssp_cfmif.c:205-257 | for every buffer, the parser that writes NULs into it returns the record the original text means, or none |
| ConfigText.FgetsLengthIs | source/Ssp/ssp_cfmif.c:292 | a line is taken whole with its newline, or cut at 4095 characters |
| FileLaws.FgetsRest | source/Ssp/ssp_cfmif.c:292 | a text without a newline is handed over 4095 characters at a time |
| FileLaws.ParseTextConcat | source/Ssp/ssp_cfmif.c:279-325 | a file holds the records of its lines: cut behind any newline, it holds those of both parts |
| FileLaws.ParseTextOneLine | source/Ssp/ssp_cfmif.c:292-300 | a line the buffer holds yields its own record |
| FileLaws.ParseTextLongLine | source/Ssp/ssp_cfmif.c:292-300 | a longer one is read as its first 4095 characters and a line made of the rest |
| ConfigText.LongLineHeadIsEmpty | source/Ssp/ssp_cfmif.c:292-300 | the 4095 characters that are read first of a longer printed line hold no record; what the rest holds is the subject of `LongLines` |
| ConfigText.FlushRoundTrip | source/Ssp/ssp_cfmif.c:279-325 | loadable records flushed are the records read back, in order, with nothing from header or footer |
| SurvivingRecords.TextYields | source/Ssp/ssp_cfmif.c:205-325 | every record read from any text at all is one the format can carry, has no newline or NUL, and is shorter than the line it came from |
| SurvivingRecords.FlushRoundTripIff | source/Ssp/ssp_cfmif.c:279-325 | for every list of records, the flushed text gives back exactly that list if and only if every record can be carried by the format, has no newline or NUL, and prints in at most 4096 characters |
| SurvivingRecords.RecordSurvivesIff | source/Ssp/ssp_cfmif.c:279-325 | the same for one record |
| LongLines.FileRecordsFate | source/Ssp/ssp_cfmif.c:279-325 | of the records read from any file, a flush and a load keep, in order, exactly those that print in at most 4096 characters and drop the others |
| LongLines.BareLineIsLost | source/Ssp/ssp_cfmif.c:205-300 | a line of 4095 characters without quotes around its fields that is read as a record, and of which the next flush and load leave nothing |
| LongLines.LongLineYields | source/Ssp/ssp_cfmif.c:292-300 | if the rest of a line that is too long is the printed line of another record, that record is read |
| LongLines.LongValueIsReplaced | source/Ssp/ssp_cfmif.c:292-300 | for every parameter name, a value such that a file holding just that parameter comes back with the value "y" |
| LongLines.SecondBootReplacesValue | source/Ssp/ssp_cfmif.c:532-614 | for every watched parameter, a bootstrap value that is in force after the first boot and another after the second, with the same sources |
| LongLines.WebConfigUrlIsReplaced | source/Ssp/ssp_cfmif.c:433-434 | that for one of the parameters in the program's own table |
| ConfigText.FlushFits | source/Ssp/ssp_cfmif.c:644-714 | if no printed record is longer than one growth step, one step a record suffices, no print is cut, and the closing line and its NUL fit |
| ConfigText.FlushFitsIff | source/Ssp/ssp_cfmif.c:669-712 | a record is flushed whole into every room a flush may have left, keeping room for the closing line, if and only if its printed line is at most one growth step long |
| ConfigStore.SmallRecordsFit | source/Ssp/ssp_cfmif.c:616-712 | from the initial buffer size the whole flush succeeds when no printed record exceeds 32768 characters (so also when no estimate does) |
| FileLaws.FlushTextSnoc | source/Ssp/ssp_cfmif.c:628-714 | one more record is one more line before the closing one |
| FileLaws.RoomAfterOne | source/Ssp/ssp_cfmif.c:669-695 | the buffer grows by 32 KiB when less room is left than the line takes with a content type, an empty one if it has none, and 22 more; then the line is cut exactly when it and its NUL do not fit |
| FileLaws.FlushStarts | source/Ssp/ssp_cfmif.c:616-666 | the flush starts with 128 KiB and 53 characters in it, and its last line needs 14 |
| FileLaws.FlatOrder | source/Ssp/ssp_cfmif.c:661-700 | records are flushed by rising bucket, and those of one bucket in the order of its chain |
| RecordChains.LookupInsert | source/Ssp/ssp_cfmif.c:348-414 | what each name finds after an insertion, with and without overwrite |
| FileLaws.BucketIs | source/Ssp/ssp_cfmif.c:143-158 | the bucket of a name, one character at a time: 33 times what it was plus the character, modulo 1024, from 261 for the empty name; the 32-bit wrap plays no part |
| FileLaws.InsertNew | source/Ssp/ssp_cfmif.c:348-414 | a new record heads the chain of its name and no other chain changes |
| FileLaws.InsertKnown | source/Ssp/ssp_cfmif.c:348-414 | a known name keeps its place in its chain, with overwrite as the new record and without as the old |
| RecordChains.InsertRefinesMap | source/Ssp/ssp_cfmif.c:348-414 | on well-formed tables insertion is map update: set if new or overwriting, otherwise the identity |
| RecordChains.InsertAllWellFormed | source/Ssp/ssp_cfmif.c:348-414 | insertions keep every record in its name's bucket and every name and type non-empty |
| RecordChains.InsertAllDistinct | source/Ssp/ssp_cfmif.c:348-414 | insertions never give a name a second record, so a name repeated in a default file is merged once |
| RecordChains.LookupInsertAllKeep | source/Ssp/ssp_cfmif.c:1429-1454 | merging without overwrite keeps what was there, else the first new record of the name |
| RecordChains.LookupInsertAllOver | source/Ssp/ssp_cfmif.c:1391-1427 | importing with overwrite leaves the last new record of the name |
| RecordChains.LookupAppendAll | source/Ssp/ssp_cfmif.c:301-318 | loading leaves the first record of each name to be found |
| RecordChains.AppendAllChain | source/Ssp/ssp_cfmif.c:301-318 | loading puts into each chain, behind what is there, the records that hash to it, in order |
| RecordChains.TableRoundTrip | source/Ssp/ssp_cfmif.c:279-325 | for every well-formed table of loadable records, loading the flushed text rebuilds every chain, record for record in order |
| SurvivingRecords.TableRoundTripIff | source/Ssp/ssp_cfmif.c:279-325 | loading the flushed text rebuilds every chain if and only if every record of the table is loadable |
| RecordTable.Fgets | source/Ssp/ssp_cfmif.c:292 | the line buffer holds the next line and its NUL |
| RecordTable.Snprintf | source/Ssp/ssp_cfmif.c:260-276 | as much as fits with its NUL is stored, the full length is returned, and nothing before the offset or behind the room changes |
| RecordTable.RecHash.Walk | source/Ssp/ssp_cfmif.c:370-412 | the walk stops at the first node of the name, with the node before it |
| RecordTable.RecHash.InsertRecord | source/Ssp/ssp_cfmif.c:348-414 | relinking the chain in place is insertion on the table; no other chain changes and no chain gets a cycle |
| RecordTable.RecHash.AppendRecord | source/Ssp/ssp_cfmif.c:301-318 | the record goes behind the last node of its chain |
| RecordTable.RecHash.LoadRecords | source/Ssp/ssp_cfmif.c:279-325 | the linked table becomes the old one with every record of the file appended; a missing file is an error and changes nothing |
| RecordTable.RecHash.ImportParams | source/Ssp/ssp_cfmif.c:716-751 | every named parameter is inserted in order: afterwards each given name has the type "astr", no content type and the value of its last parameter, or without overwrite what it had before or the value of its first; other names are as before, and a failed query changes nothing |
| ImportedParams.ImportMeans | source/Ssp/ssp_cfmif.c:1391-1427 | that for every table and every list of parameters |
| ImportedParams.LastParam | source/Ssp/ssp_cfmif.c:1402-1412 | with overwrite the last parameter of a name counts, with its own name and value |
| ImportedParams.FirstParam | source/Ssp/ssp_cfmif.c:726-740 | without, the first |
| RecordTable.RecHash.MergeFile | source/Ssp/ssp_cfmif.c:1429-1454 | every record of the file is inserted in order |
| RecordTable.RecHash.FlushOne | source/Ssp/ssp_cfmif.c:669-695 | offset plus remaining stays the buffer size across growth and print, and the text so far is kept |
| RecordTable.RecHash.FlushRecords | source/Ssp/ssp_cfmif.c:628-714 | the text is exactly header, records in bucket order and footer and the table is emptied; the result is described exactly when no print is cut |
| ConfigMerge.MergeMeaning | source/Ssp/ssp_cfmif.c:1490-1550 | for every name: the last partner override, else the loaded file's first, else custom, else the first default, else the bootstrap value of an entry not flagged |
| BootLaws.PartnerWins | source/Ssp/ssp_cfmif.c:1533-1535 | after a boot the last partner override of a name is in force, whatever else there is |
| BootLaws.FileWins | source/Ssp/ssp_cfmif.c:1512-1522 | a name without one has the first record that the current file holds for it, whatever the backup holds; the backup counts only when there is no current file |
| BootLaws.CustomWins | source/Ssp/ssp_cfmif.c:1512-1525 | a name in neither has the first custom parameter of its name |
| BootLaws.DefaultWins | source/Ssp/ssp_cfmif.c:1527-1531 | a name in none of them has the first record of the default file |
| BootLaws.BootstrapWins | source/Ssp/ssp_cfmif.c:532-614 | a name in none of them has the bootstrap value of its first table entry that is not flagged and has one |
| BootLaws.NothingElse | source/Ssp/ssp_cfmif.c:1490-1550 | no other name is in the table |
| ConfigMerge.NoBootValueWhenPresent | source/Ssp/ssp_cfmif.c:532-614 | a name that is present gets no bootstrap value |
| ConfigMerge.MergedWellFormed | source/Ssp/ssp_cfmif.c:1490-1550 | the merged table is well formed for all inputs |
| ConfigMerge.MergedDistinct | source/Ssp/ssp_cfmif.c:1490-1550 | if the loaded file names each record once, so does the merged table |
| ConfigMerge.RereadParts | source/Ssp/ssp_cfmif.c:1512-1534 | on the file a boot wrote, loading and merging custom, default and partner records in force adds nothing |
| ConfigMerge.BootFixpoint | source/Ssp/ssp_cfmif.c:1512-1549 | a second boot with the same custom, default and bootstrap inputs writes the byte-identical file, whatever its flags |
| ConfigMerge.MergedLoadable | source/Ssp/ssp_cfmif.c:1490-1550 | if every record the sources can contribute is loadable, so is every record of the merged table |
| ConfigMerge.PartnersInForce | source/Ssp/ssp_cfmif.c:1391-1427 | partner overrides that name each parameter once are in force after the merge |
| ConfigMerge.BootFixpointOfSources | source/Ssp/ssp_cfmif.c:1512-1549 | the fixpoint asked of the sources alone: loadable records and partner overrides without repeats |
| ConfigStore.ConfigStore.Search | source/Ssp/ssp_cfmif.c:490-530 | an entry is found if and only if its name is in the table, and reported unless it heads its chain |
| ConfigStore.ConfigStore.IsParameterMissed | source/Ssp/ssp_cfmif.c:490-530 | exactly the entries in the table are newly flagged; flags set before stay |
| FileLaws.CoveredIsReported | source/Ssp/ssp_cfmif.c:490-530 | a parameter that another name of its chain is inserted in front of is reported as missing although it is there |
| ConfigStore.ConfigStore.MergeMissing | source/Ssp/ssp_cfmif.c:532-614 | the table gains the bootstrap records of unflagged entries, and nothing when no entry is reported; it fails exactly when one is and the bootstrap file cannot be opened |
| ConfigStore.ConfigStore.LoadSource | source/Ssp/ssp_cfmif.c:1512-1522 | the table holds the records of the current file's text, of the backup's when there is no current file, and none when there is neither |
| ConfigStore.ConfigStore.ReadCurConfig | source/Ssp/ssp_cfmif.c:1490-1550 | when no print is cut, the boot on the linked table flushes exactly the text of the merged table and saves it, to both files as far as the file system takes it; the status says whether the current file took all of it; in the table it flushes, every first record of the current file (of the backup when there is none) is in force unless a partner override names it |
| ConfigStore.ConfigStore.SaveCurConfig | source/Ssp/ssp_cfmif.c:2258-2300 | the current file is written first; the backup is made only from a current file written whole, and its failure does not fail the save |
| FileLaws.SaveLeaves | source/Ssp/ssp_cfmif.c:2258-2300 | after a save the current file is the text, a part of it, or as before when it could not be opened; the backup changes only behind a whole current file, and otherwise stays |
| CrashProtocol.SaveIsSafeIff | source/PsmSysRegistry/psm_sysro_cfmif.c:558-628 | for every outcome of the file operations and every validator, a save leaves something to restore at every step if and only if: when the backup is begun, the current file is valid and, should it be rewritten, so is what reached the backup; when it is not begun but the current file is rewritten, the old backup is valid |
| CrashProtocol.SaveEnds | source/PsmSysRegistry/psm_sysro_cfmif.c:558-628 | what a save leaves in each file, for every answer of the file system |
| CrashProtocol.SaveBacksUpFirst | source/PsmSysRegistry/psm_sysro_cfmif.c:558-628 | a save that goes well leaves the text and the old current file as backup, and at every step one of the two files is the old current one |
| CrashProtocol.ShortBackupLosesBoth | source/Ssp/ssp_cfmif.c:2189-2204 | if what reached the backup is not valid, the save has a step at which neither file is |
| CrashProtocol.RefusedBackupLosesBoth | source/Ssp/ssp_cfmif.c:2154-2187 | the same if the backup cannot be created and there is no valid one from before |
| CrashProtocol.SaveAfterShortWriteLosesBoth | source/PsmSysRegistry/psm_sysro_cfmif.c:599-628 | a save over a broken current file has a step at which neither file is valid |
| CrashProtocol.SaveKeepsInv | source/PsmSysRegistry/psm_sysro_cfmif.c:558-628 | the invariant survives a save that is cut at any byte, cannot open the current file, or writes it short |
| CrashProtocol.RecoverKeepsInv | source/PsmSysRegistry/psm_sysro_cfmif.c:152-343 | the invariant survives a recovery cut at any byte |
| CrashProtocol.RecoveryFindsFirst | source/PsmSysRegistry/psm_sysro_cfmif.c:152-343 | a recovery fails if and only if none of current, backup and default is there, not empty and accepted; otherwise it returns the first that is, leaves it as the current file and touches no other |
| CrashProtocol.CrashSafety | source/PsmSysRegistry/psm_sysro_cfmif.c:115-343 | after any run of saves and recoveries, each cut anywhere or not, current or backup is valid and the next recovery returns one of them, with the last or the interrupted configuration, never the default; of the validator it asks only that a saved text cut short is rejected or stands for the same configuration |
| CrashProtocol.RecoveryInstalls | source/PsmSysRegistry/psm_sysro_cfmif.c:152-343 | a completed recovery leaves its result as the current file and does not touch the backup unless it needs the default |
| CrashProtocol.RecoveryEstablishesInv | source/PsmSysRegistry/psm_sysro_cfmif.c:152-343 | from any state, a completed recovery of a text that is rejected or unchanged in meaning when cut short, the default included, establishes the invariant |
| CrashProtocol.CrashSafetyFromBoot | source/PsmSysRegistry/psm_sysro_cfmif.c:115-343 | crash safety of every run that follows a first completed recovery |
| CrashFiles.ConfigFiles.BackupFile | source/Ssp/ssp_cfmif.c:2152-2222 | the backup goes through exactly the modelled steps, none if it fails before creating the file, and reports success exactly for a complete copy |
| CrashFiles.ConfigFiles.SaveCurConfig | source/PsmSysRegistry/psm_sysro_cfmif.c:542-628 | the save goes through exactly the modelled steps; a current file that is missing, cannot be opened or is written short fails it |
| CrashFiles.ConfigFiles.ReadCurConfig | source/PsmSysRegistry/psm_sysro_cfmif.c:115-343 | the three-attempt loop goes through exactly the modelled steps and returns the first valid file, now the current one; it returns none if and only if none of the three is valid |
| FlushMachine.NoLostDirtiness | source/PsmSysRegistry/psm_sysro_sysramif.c:176-198 | in a run from a clean state the file is exactly the registry whenever saving is allowed and no flush is due, and stays so under all orderly steps to come, if and only if the run's reloads find the object active and its engagements find a flush due or no name the file lacks |
| FlushMachine.StepSoundIff | source/PsmSysRegistry/psm_sysro_operation.c:117-159 | from a clean state, exactly the orderly steps lead to a state that is consistent and stays so under orderly steps |
| FlushMachine.ProgramRuns | source/Ssp/ssp_main.c:441-505 | every run the program makes, which engages a new object once and cancels it at most at the end, loses no change |
| FlushMachine.InitialIsClean | source/PsmSysRegistry/psm_sysro_base.c:493-498 | the invariant holds of the new object, and its first engagement is orderly |
| FlushMachine.ReloadSoundIff | source/Ssp/ssp_dbus.c:1024-1035 | a reload of a clean state is followed by consistent states only, whatever orderly steps come, if and only if the object is active |
| FlushMachine.EngageCleanIff | source/PsmSysRegistry/psm_sysro_operation.c:117-159 | engaging with saving blocked ends with file and registry equal if and only if the registry had no name the file lacks |
| FlushMachine.EngageLosesARecord | source/PsmSysRegistry/psm_sysro_operation.c:117-159 | a run of the object's interface, with a second engagement, that ends with no flush due, saving allowed, and a record in the registry that the file lacks |
| FlushMachine.ReloadLosesARecord | source/Ssp/ssp_dbus.c:1024-1035 | a run of the object's interface: after a reload of an inactive object the timer clears the flag without saving |
| FlushMachine.SaveWritesIff | source/PsmSysRegistry/psm_sysro_storage.c:655-691 | after an explicit save the file is the registry if and only if the loader is active or it already was |
| FlushMachine.ElapsedTicks | source/PsmSysRegistry/psm_sysro_operation.c:281-291 | the unsigned tick difference is the elapsed time modulo 2^32, exact across a wrap |
| FlushMachine.TickIsStamped | source/PsmSysRegistry/psm_sysro_sysramif.c:176-198 | in every run the stored tick is that of the last notified write |
| FlushMachine.QuietPeriod | source/PsmSysRegistry/psm_sysro_operation.c:281-306 | in every run the timer saves no earlier than 3 seconds after the last notified write |
| FlushMachine.BoundedDelay | source/include/psm_sysro_interface.h:97-98 | with the 10-second timer on, balanced and no write, the flush comes at a known firing less than 13 seconds after the write |
| FlushMachine.TimerRunFlushes | source/PsmSysRegistry/psm_sysro_operation.c:266-315 | in any run of firings after a write, the registry is saved if and only if one comes 3 seconds or more after it |
| FlushMachine.SyncBalance | source/PsmSysRegistry/psm_sysro_sysramif.c:114-125 | over all runs the sync counter is disables minus enables modulo 2^32 |
| FlushMachine.SavesOnlyWhenBalanced | source/PsmSysRegistry/psm_sysro_operation.c:294-298 | the timer saves only when they balance |
| FlushMachine.ResetHolds | source/PsmSysRegistry/psm_sysro_storage.c:118-148 | after a factory reset no run of writes, firings and sync changes brings a file back |
| RegistryLaws.EngageLoads | source/PsmSysRegistry/psm_sysro_operation.c:104-159 | engaging lays the file over the defaults and both over the registry, name by name, with nothing else in the file, allows saving and starts the timer |
| RegistryLaws.ReloadLoads | source/Ssp/ssp_dbus.c:1024-1035 | reloading an active object keeps every value of the registry and adds the names only the defaults have |
| RegistryLaws.WriteSets | source/Ssp/ssp_dbus.c:1054-1107 | a write sets its name and keeps all others; an equal value changes nothing, another is noted while saving is allowed |
| RegistryLaws.ProgramIsReady | source/Ssp/ssp_main.c:441-505 | an engaged program that is not blocked is consistent and ready to save after any run |
| RegistryLaws.SetSurvivesRestart | source/PsmSysRegistry/psm_sysro_operation.c:104-315 | a value set in any such run whose sync requests balance is saved by a timer 3 seconds later and is in the registry after the next start, whatever the defaults are then |
| SysRegistry.SysRegistry.SysRamNotify | source/PsmSysRegistry/psm_sysro_sysramif.c:164-200 | a change is noted unless saving is blocked or in progress |
| SysRegistry.SysRegistry.SysRamEnableFileSync | source/PsmSysRegistry/psm_sysro_sysramif.c:107-130 | the method is the machine's sync step, and loses no change |
| SysRegistry.SysRegistry.LoadRegFile | source/PsmFileLoader/psm_flo_control.c:168-270 | adding the file's records one by one, each notified, is the machine's load: in registry and file a name has the file's value, else the defaults', and a name in neither stays as it was in the registry |
| SysRegistry.SysRegistry.Engage | source/PsmSysRegistry/psm_sysro_operation.c:104-159 | the method is the machine's engage step, and loses no change if the file has every name or a flush is due; the file counts over the defaults and the defaults over the registry |
| SysRegistry.SysRegistry.Cancel | source/PsmSysRegistry/psm_sysro_operation.c:199-240 | the method is the machine's cancel step, and loses no change |
| SysRegistry.SysRegistry.RegTimerInvoke | source/PsmSysRegistry/psm_sysro_operation.c:266-315 | the method is the machine's timer step, and loses no change |
| SysRegistry.SysRegistry.SaveConfigToFlash | source/PsmSysRegistry/psm_sysro_storage.c:655-691 | the method is the machine's explicit save, and loses no change |
| SysRegistry.SysRegistry.ResetToFactoryDefault | source/PsmSysRegistry/psm_sysro_storage.c:118-148 | the method is the machine's factory reset, and loses no change |
| SysRegistry.SysRegistry.SetRecord | source/Ssp/ssp_dbus.c:1054-1107 | the method is the machine's write; an equal value is no write, and loses no change |
| SysRegistry.SysRegistry.ReloadConfig | source/Ssp/ssp_dbus.c:1024-1035 | the method is the machine's reload, and loses no change if the object is active: the registry counts over the defaults |
| NameListing.CutShape | source/Ssp/ssp_dbus.c:1318-1338 | what a record contributes: the prefix kept, cut just behind the next dot, uncut without one, an exact match dropped |
| NameListing.ListedExactly | source/Ssp/ssp_dbus.c:1303-1398 | the result is exactly the set of contributions, each once |
| NameListing.ListedInOrder | source/Ssp/ssp_dbus.c:1303-1431 | the result is in the order of first occurrence |
| NameListing.GetParameterNames | source/Ssp/ssp_dbus.c:1303-1431 | truncation in the name buffer, the search of the pushed list and the reverse fill produce that list |
| ValueCodecs.IpRoundTrip | source/PsmFileLoader/psm_flo_parse.c:126-219 | decoding a written address gives its four bytes |
| ValueCodecs.IntsComeBackSaturated | source/PsmFileLoader/psm_flo_parse.c:461-602 | decoding a written list gives every number, capped at 2^31 - 1 |
| ValueCodecs.IntsRoundTripIff | source/PsmFileLoader/psm_flo_parse.c:461-602 | a list comes back if and only if no number exceeds 2^31 - 1 |
| ValueCodecs.IpsRoundTrip | source/PsmFileLoader/psm_flo_parse.c:606-776 | decoding a written address list gives its bytes |
| ValueCodecs.IpsLength | source/PsmFileLoader/psm_flo_parse.c:709-776 | 16 bytes an address hold text and NUL for every list, and no fewer do for 255.255.255.255 |
| ValueLaws.AtoiMeans | source/PsmFileLoader/psm_flo_parse.c:185 | how numbers are read: leading blanks, one sign, digits, nothing behind them, cut to 32 bits signed |
| ValueLaws.DecDigits | source/PsmFileLoader/psm_flo_parse.c:134-142 | how they are printed: the decimal digits without a leading zero |
| ValueLaws.IpMeans | source/PsmFileLoader/psm_flo_parse.c:149-219 | a text of four parts is an address if and only if each part reads as 0 to 255, and these are its bytes |
| ValueLaws.IpDots | source/PsmFileLoader/psm_flo_parse.c:149-219 | a text without exactly three dots is none, unless it is empty, which is the zero address |
| ValueLaws.IntsOfSegment | source/PsmFileLoader/psm_flo_parse.c:461-549 | a text without commas is one number, or none when empty |
| ValueLaws.IntsConcat | source/PsmFileLoader/psm_flo_parse.c:461-549 | two texts joined by a comma hold the numbers of both |
| ValueLaws.IpsOfSegment | source/PsmFileLoader/psm_flo_parse.c:606-705 | a text without commas is one address, or none when empty |
| ValueLaws.IpsConcat | source/PsmFileLoader/psm_flo_parse.c:606-705 | two texts joined by a comma hold the addresses of both, or none when one is rejected; commas alone hold none |
| ValueLaws.IntSegments | source/PsmFileLoader/psm_flo_parse.c:553-602 | the segments of a written list are its numbers |
| ValueLaws.IpSegments | source/PsmFileLoader/psm_flo_parse.c:709-776 | the segments of a written address list are its addresses |
| MacCalendar.MacRoundTrip | source/PsmFileLoader/psm_flo_parse.c:317-457 | decoding a written MAC text gives its bytes, for every length |
| MacCalendar.MacUpperForm | source/PsmFileLoader/psm_flo_parse.c:317-457 | writing what an accepted text decodes to gives the text in upper case |
| ValueLaws.MacAcceptedIff | source/PsmFileLoader/psm_flo_parse.c:367-457 | a text is decoded if and only if its length is 2 modulo 3, every third character is a colon, and every other one is a digit or a letter from A to F in either case |
| ValueLaws.MacRefusal | source/PsmFileLoader/psm_flo_parse.c:384-452 | which failure a refused text of that length gives: that of its first character out of place |
| ValueLaws.MacMeans | source/PsmFileLoader/psm_flo_parse.c:426-450 | each pair of digits, in either case, is one byte, high digit first |
| ValueLaws.MacIgnoresCase | source/PsmFileLoader/psm_flo_parse.c:434-438 | texts that differ in the case of letters decode alike |
| MacCalendar.CalendarRoundTrip | source/PsmFileLoader/psm_flo_parse.c:222-313 | the scanner recovers all six 16-bit fields and does not run past the text |
| ValueLaws.CalendarShape | source/PsmFileLoader/psm_flo_parse.c:222-246 | times of ordinary size are 19 characters, year/month/day hour:minute:second |
| ValueLaws.ScanField | source/PsmFileLoader/psm_flo_parse.c:250-313 | each field is the next run of at most seven digits, in 16 bits, behind anything that is no digit; one character behind it is passed over |
| ValueDecoders.CutSegment | source/PsmFileLoader/psm_flo_parse.c:171-182 | a separator becomes a NUL inside the segment's range; what is left splits as before |
| ValueDecoders.DecodeIpAddr | source/PsmFileLoader/psm_flo_parse.c:149-219 | the in-place decoder computes the address or fails, writing nothing outside its string and, on failure, nothing out |
| ValueDecoders.CountItems | source/PsmFileLoader/psm_flo_parse.c:478-504 | the counting pass counts the non-empty segments |
| ValueDecoders.FillInts | source/PsmFileLoader/psm_flo_parse.c:519-548 | the filling pass, which overwrites separators, fills an array of the counted size exactly |
| ValueDecoders.DecodeIntList | source/PsmFileLoader/psm_flo_parse.c:461-549 | for every text the array is that of its non-empty segments, or there is none |
| ValueDecoders.FillIps | source/PsmFileLoader/psm_flo_parse.c:664-705 | the filling pass with the inner decoder fills four bytes a segment, staying inside the segment |
| ValueDecoders.DecodeIp4AddrList | source/PsmFileLoader/psm_flo_parse.c:606-705 | for every text both passes agree and the bytes are those of all segments, or there are none |
| ValueBuffers.WriteIp4AddrList | source/PsmFileLoader/psm_flo_parse.c:709-776 | the printing loop never leaves the buffer and produces the joined text; refused lengths fail |
| ValueBuffers.WriteIp4Address | source/PsmFileLoader/psm_flo_parse.c:126-145 | every address and its NUL fit the 32-byte buffer |
| ValueBuffers.WriteCalendarTime | source/PsmFileLoader/psm_flo_parse.c:222-246 | every time of six 16-bit fields fits the 64-byte buffer |
| ValueBuffers.WriteMacAddress | source/PsmFileLoader/psm_flo_parse.c:317-350 | up to 21 bytes are printed within 64 characters |
| ValueBuffers.PrintInts | source/PsmFileLoader/psm_flo_parse.c:553-602 | lists whose text fits are printed whole in 64 characters |
| ValueBuffers.DecodeMacAddress | source/PsmFileLoader/psm_flo_parse.c:367-457 | for every text the in-place decoder gives the bytes over the text, or the right failure and an unchanged text; which texts those are is `ValueLaws.MacAcceptedIff` |
| ValueBuffers.DecodeCalendar | source/PsmFileLoader/psm_flo_parse.c:250-313 | the pointer loops find the six fields of the scan, each through the 8-byte buffer |
| RecordXml.TypeRoundTrip | source/PsmFileLoader/psm_flo_parse.c:779-801 | every record type is found again from its name |
| RecordXml.ContentRoundTripIff | source/PsmFileLoader/psm_flo_parse.c:804-837 | a content type is found again from its name if and only if it is one of the first fifteen |
| NodeLaws.TypeNumbers | source/PsmFileLoader/psm_flo_parse.c:88-92 | the seven type names and their numbers |
| NodeLaws.NewNames | source/PsmFileLoader/psm_flo_parse.c:94-99 | the fifteen names of content types and their numbers |
| NodeLaws.OldNames | source/PsmFileLoader/psm_flo_parse.c:101-105 | the fifteen names that older files use and their numbers |
| NodeLaws.ContentIgnoresCase | source/PsmFileLoader/psm_flo_parse.c:804-837 | names that differ in case have one number |
| NodeLaws.OtherNames | source/PsmFileLoader/psm_flo_parse.c:804-837 | any other name is the default |
| RecordXml.ValueIff | source/PsmFileLoader/psm_flo_parse.c:1101-1768 | which values of each type come back: four-byte longs and addresses, booleans 0 or 1, plain times, small integers, address lists that fit |
| RecordXml.RecordRoundTripIff | source/PsmFileLoader/psm_flo_parse.c:1101-1768 | a written record is loaded as it was if and only if its name fits, its content type is not the sixteenth, its permission is the default and its value survives |
| NodeLaws.WrittenNode | source/PsmFileLoader/psm_flo_parse.c:1139-1173 | a record's node holds its name, its type, its content type unless it is the default, and no permission |
| NodeLaws.RecordComesBack | source/PsmFileLoader/psm_flo_parse.c:1101-1768 | whatever is written loads again with its name and type and what is kept of its value: four bytes of a number or address, a boolean as 0 or 1, a time to the second, list numbers up to 2^31 - 1; the sixteenth content type comes back as the default, the permission as all |
| NodeLaws.NodeFails | source/PsmFileLoader/psm_flo_parse.c:1280-1305 | a node without a readable name, or with a type that is none of the seven, fails |
| NodeLaws.LoadsNumber | source/PsmFileLoader/psm_flo_parse.c:1322-1388 | numbers and enumerations load as four bytes, the lowest first, under the name, type, content type and permission the attributes say |
| NodeLaws.LoadsAddress | source/PsmFileLoader/psm_flo_parse.c:1322-1372 | an empty address is skipped, a rejected one fails, another loads as its bytes |
| NodeLaws.LoadsFlag | source/PsmFileLoader/psm_flo_parse.c:1390-1414 | booleans load as 0 or 1 |
| NodeLaws.LoadsText | source/PsmFileLoader/psm_flo_parse.c:1416-1474 | texts load as their bytes |
| NodeLaws.LoadsTime | source/PsmFileLoader/psm_flo_parse.c:1476-1768 | times load without milliseconds or daylight saving |
| NodeLaws.LoadsNumbers | source/PsmFileLoader/psm_flo_parse.c:1476-1768 | lists of numbers load four bytes a number, and as empty when the text holds none |
| NodeLaws.LoadsAddresses | source/PsmFileLoader/psm_flo_parse.c:1476-1768 | an address list with a rejected part loads as empty, an empty text is skipped |
| NodeLaws.LoadsMac | source/PsmFileLoader/psm_flo_parse.c:1476-1768 | a rejected MAC address fails, an empty text is skipped |
| RecordIO.ReadValue | source/PsmFileLoader/psm_flo_parse.c:1322-1768 | reading through the text buffer and the in-place decoders gives the value the node's data means |
| RecordIO.WriteValue | source/PsmFileLoader/psm_flo_parse.c:1164-1248 | branch by branch, each type sets the data its record means; addresses, lists, MAC addresses and times go through their buffers |
| RecordIO.AddRecordToXml | source/PsmFileLoader/psm_flo_parse.c:1101-1257 | one child is added, with the record's attributes and data and nothing else |
| FolderTree.LoadAppend | source/PsmFileLoader/psm_flo_parse.c:2096-2145 | loading a list of children in two parts is loading it in one |
| FolderTree.RecordsIff | source/PsmFileLoader/psm_flo_parse.c:1945-1958 | the written records of a folder come back, in order, if and only if each of them does |
| FolderTree.SubsIff | source/PsmFileLoader/psm_flo_parse.c:1961-2032 | the written subfolders come back, in order, if and only if each of them does |
| FolderTree.TreeRoundTripIff | source/PsmFileLoader/psm_flo_parse.c:1884-2148 | writing a tree and loading it into an empty folder gives the same tree, up to the root's own attributes, if and only if all records come back and every subfolder has a name of at most 128 characters and the storage type |
| FolderLaws.RecordNodeLoads | source/PsmFileLoader/psm_flo_parse.c:2096-2110 | a record node puts its record in the place of the one of its name, or last |
| FolderLaws.RecordNodeLeaves | source/PsmFileLoader/psm_flo_parse.c:2096-2110 | a skipped record changes nothing; a failed one ends the load and changes nothing |
| FolderLaws.FolderNodeFails | source/PsmFileLoader/psm_flo_parse.c:1790-1797 | a folder node without a name of at most 128 characters ends the load and changes nothing |
| FolderLaws.KnownFolderNodeLoads | source/PsmFileLoader/psm_flo_parse.c:1799-1850 | a subfolder that is there keeps its place and what it has, is dressed as the node says and loaded into, up to a failing child |
| FolderLaws.NewFolderNodeLoads | source/PsmFileLoader/psm_flo_parse.c:1799-1850 | a new one comes last, a storage folder with all permissions until the node says otherwise |
| FolderLaws.LoadKeepsRecords | source/PsmFileLoader/psm_flo_parse.c:2072-2148 | records keep their places over a load, and those no node names their contents |
| FolderLaws.FolderTypeNumbers | source/PsmFileLoader/psm_flo_parse.c:107-111 | the four folder types and their numbers |
| FolderLaws.FolderContentNumbers | source/PsmFileLoader/psm_flo_parse.c:113-117 | the six folder content types and their numbers |
| FolderLaws.WrittenChildren | source/PsmFileLoader/psm_flo_parse.c:1884-2040 | a written folder has one child a record and then one a subfolder, in order, behind what was there |
| FolderLaws.WrittenFolderAttrs | source/PsmFileLoader/psm_flo_parse.c:1920-1943 | a written folder has its content type unless it is the default and its permission unless it is all; its type is not written |
| FolderPaths.PutAtKeepsOthers | source/PsmFileLoader/psm_flo_parse.c:1790-1850 | changing the folder of a handle changes no folder that is not below or above it |
| FolderPaths.PutAtKeepsAbove | source/PsmFileLoader/psm_flo_parse.c:1790-1850 | those above it keep their records and attributes |
| FolderRepository.Repository.AddFolder | source/PsmFileLoader/psm_flo_parse.c:1790-1807 | the subfolder is there, opened under a handle never used before |
| Translator.FolderToXml | source/PsmFileLoader/psm_flo_parse.c:1884-2040 | the recursive writer terminates, turns the node into the written folder, and leaves exactly the handles open that were |
| Translator.LoadRecordFromXml | source/PsmFileLoader/psm_flo_parse.c:1261-1768 | for every node only the records of the folder behind the handle change, and where the value is known the folder changes as loading the record means |
| Translator.LoadFolderFromXml | source/PsmFileLoader/psm_flo_parse.c:1772-1850 | for every folder node over folders and records the subfolder's handle is closed on success and on failure and the rest of the tree is kept; where the values are known the subfolder is added, dressed and loaded as the node says |
| Translator.FolderFromXml | source/PsmFileLoader/psm_flo_parse.c:2072-2148 | on every document of folders and records the recursive loader terminates, leaves exactly the handles open that were and keeps the rest of the tree, whatever the document library makes of the values; where they are known it loads up to the first failing child |
| Translator.KnownIsTagged | source/PsmFileLoader/psm_flo_parse.c:2092-2145 | documents whose values are known are documents of folders and records |
| SaveAndLoad.WrittenKnown | source/PsmFileLoader/psm_flo_parse.c:1884-2040 | the written values of a tree that comes back are all known to the loader |
| SaveAndLoad.WrittenTagged | source/PsmFileLoader/psm_flo_parse.c:1884-2040 | every node written below the root, for every tree, is a folder or a record |
| SaveAndLoad.SavedTreeLoads | source/PsmFileLoader/psm_flo_control.c:168-445 | a saved tree is a document the loader may be given, and loading it into an empty folder succeeds with the same tree |
| FileLoader.FileLoader.LoadRegFile | source/PsmFileLoader/psm_flo_control.c:168-270 | for every stored document of folders and records: the status on each exit, the rest of the tree kept and no handle left open; where the values are known, the loaded folder |
| FileLoader.FileLoader.SaveRegFile | source/PsmFileLoader/psm_flo_control.c:298-445 | on every exit no handle is left open and write access is balanced unless taking it again is refused; on success the stored document is the written folder and one the loader may be given, after a failed save it is whatever the failure left |

## Left out

- `ssp_CfmUpdateConfigs` and its XML helpers: they fail on every path (source/Ssp/ssp_cfmif.c:1955-1957), so the three-way merge is never reached. `ssp_CfmReadDefConfig` is not part of this model.
- HAL parameter discovery, syscfg and JSON reading: their results are input lists, and the bootstrap file is a map from partner names to values.
- Memory: allocation failures and buffer sums beyond 2^31 are not modelled; `AnscAllocateMemory` returns zeroed memory. The hash reads characters as unsigned; where `char` is signed, names outside ASCII go to other chains than `FileLaws.BucketIs` says.
- ConfigStore.ConfigStore.ReadCurConfig: what becomes of the files when a print of the flush was cut short is not described: `snprintf` returns the full length, so the source reports success with an offset past its buffer (source/Ssp/ssp_cfmif.c:269-275, :709-713) and saves from there. `load_records` accepts a truncated file, so crash safety is not claimed for this pair of files.
- CrashProtocol.CrashSafety: a save that fails without a crash after touching the current file is followed by a recovery in these runs; `CrashProtocol.SaveAfterShortWriteLosesBoth` says what another save would do. Opening for rewriting needs an existing file, copying a missing file has no effect, a copy is whole unless a crash cuts it, an empty file cannot be mapped; these are how the file routines are used here.
- FlushMachine.NoLostDirtiness: steps are atomic, so locks and their order (deadlock) are not modelled; saves and loads succeed (the timer clears the flag whatever a save returns); the file stands for the current and the backup file together, and loading completes it without partner overrides. `AddRecord2` notifies for every record. Times are whole seconds.
- RecordTable.RecHash.FlushRecords: the table, the buffer and the length after a print was cut short are not described, because the source then goes on past its buffer.
- ValueBuffers.PrintInts: lists whose text is longer than 63 characters overrun the writer's buffer and are left out, as are MAC addresses of more than 21 bytes.
- ValueBuffers.DecodeCalendar: a text whose scan would run past its end or past the 8-byte field buffer is left out.
- RecordXml.RecordRoundTripIff: records of type enum, empty or refused lists and empty MAC addresses are left out, because no data is set for them and what reading them gives is up to the document library. What the library makes of data of another kind, or of a text longer than the loader's buffer, is outside the model. A ULONG has four bytes, stored little-endian; a BOOL counts as one byte.
- RecordXml.AccessOf: the writer never writes a record's permission, so a record with another than the default one loses it; the default's numeric value plays no part.
- FolderRepository.Repository.AddFolder: the repository and document libraries are modelled as the translator uses them: siblings have different names, opening an existing folder and adding one succeed, adding a record replaces one of the same name, names come back whole. Their failures, and time stamps, are left out. SYS_MAX_RECORD_NAME_SIZE is a parameter of at least 64.
- Translator.FolderFromXml: a child that is neither a folder nor a record makes the source loop for ever; such documents are excluded. For a text with a NUL, or data of another kind than its type asks for, every outcome is allowed.
- FileLoader.FileLoader.LoadRegFile: parsing and encoding of XML text belong to the library; a stored configuration is missing, not well formed, or a document.
- DES import and export, `getParameterValues`, D-Bus and rbus registration, daemonising, signals, logging, getters and setters.
