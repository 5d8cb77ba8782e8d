# ClickHouse backup manager: a Dafny model

This project models the core of a small web backup manager for ClickHouse.
It covers three parts.

- **The backup catalogue** (`BackupManager` in `backend/worker.py`). This is an
  in-memory list of backup records, each with an id, a database, a type (full or
  incremental), a destination, a base backup, a timestamp and a status. Records
  are appended, looked up (first match), listed by database, and removed by a
  guarded delete: a full backup is kept while any record names it as its base.
- **The ClickHouse side of `ClickHouseBackup`.** This covers the `BACKUP` and
  `RESTORE` statements it builds, how it reads an operation's status from
  `system.backups`, and how a full or incremental backup, a restore and a delete
  keep the catalogue in step.
- **The backup-list parser** (`parse_backup_list` and `classify_backup` in
  `backend/app/utils/backup_utils.py`), and **the identifier validators**
  (`backend/validation.py`).

Files:

- `wrappers.dfy`: `Option` and `Outcome` (pass, or fail with an error).
- `pystrings.dfy`: the Python string built-ins the parser uses (`split()`,
  `splitlines()`, `strip()` emptiness, `startswith`), with their round trips.
- `validation.dfy`: the two `re.match` predicates, including how `$` behaves,
  and the two `validate_*` functions.
- `backup_utils.dfy`: four pieces of `classify_backup`: the type prefix,
  `re.search(r"\d{8}")`, `strptime("%Y%m%d")` following CPython's regex-based
  parser, and `strftime("%Y-%m-%d")`. Also the line loop of `parse_backup_list`.
- `catalogue.dfy`: the record type, the specification functions (filter,
  first-match lookup, removability) and the `BackupManager` class.
- `lineage.dfy`: the invariant that every base names a record in the catalogue,
  what keeps it, and what breaks it.
- `clickhouse.dfy`: three parts:
  - the status classification and the polling loop;
  - the statement text, with a decoder and a round-trip proof;
  - the `ClickHouseBackup` class.

Some behaviour of the code worth stating:

- a status query that finds no row ends the wait normally, not with an error;
- `add_backup` does not reject duplicate ids;
- there is no provisional `pending` record: the record is written only after the
  call returns, with the status of the first answer;
- the dependent check on delete applies to full records only;
- `restore` takes its source text from the caller, not from a catalogue record.

The driver is passed in as parameters:

- `execute: string -> Reply` gives the first row the driver returns for a
  statement, or that it returns no row, or that it raises.
- `polls: seq<Option<StatusRow>>` gives the successive answers to the status
  query. When they run out before a terminal status, the outcome is
  `StillWaiting`: the Python call would still be looping.

Timestamps come in as parameters too (`datetime.now()` for full backups,
`datetime.utcnow()` for incremental ones).

## Model

| member | source | states |
|---|---|---|
| PyStrings.Split | backend/app/utils/backup_utils.py:90 | `str.split()` yields only non-empty pieces free of spaces and tabs |
| PyStrings.SplitUnwords | backend/app/utils/backup_utils.py:90 | splitting words joined by single spaces gives the words back |
| PyStrings.BlankIffNoWords | backend/app/utils/backup_utils.py:87-92 | `line.strip()` is empty iff `line.split()` is empty, so the second `continue` never fires |
| PyStrings.SplitLines | backend/app/utils/backup_utils.py:86 | `splitlines()` pieces contain no line break |
| PyStrings.SplitLinesTerminated | backend/app/utils/backup_utils.py:86 | splitting break-free lines, each ended by '\n', gives the lines back |
| PyStrings.TerminatedSplitLines | backend/app/utils/backup_utils.py:86 | ending every piece with '\n' gives the text back, with a final '\n' added when missing |
| Validation.IdentifierCharacterization | backend/validation.py:7 | `is_valid_identifier(s)` iff s, or s without one final '\n', is a letter or `_` followed by letters, digits and `_` |
| Validation.BackupIdentifierCharacterization | backend/validation.py:11 | `is_valid_backup_identifier(s)` iff s, or s without one final '\n', is lower-case letters, digits and `-` (possibly none) |
| Validation.TrailingNewlineQuirk | backend/validation.py:7-11 | a valid name followed by one '\n' is accepted, followed by two it is not; the empty and the "\n" backup id are accepted |
| Validation.IsValidIdentifier | backend/validation.py:5-7 | `re.match` of `^[a-zA-Z_][a-zA-Z0-9_]*$`, with Python's `$`; its meaning is stated by Validation.IdentifierCharacterization |
| Validation.IsValidBackupIdentifier | backend/validation.py:9-11 | `re.match` of `^[a-z0-9\-]*$`, with Python's `$`; its meaning is stated by Validation.BackupIdentifierCharacterization |
| Validation.ValidateIdentifier | backend/validation.py:13-16 | passes iff the name is valid, and otherwise fails naming it |
| Validation.ValidateBackupIdentifier | backend/validation.py:18-21 | passes iff the backup id is valid, and otherwise fails |
| Validation.RejectedByChar | backend/validation.py:7 | one character outside the classes, at any position including the last, makes a name invalid unless it is a final '\n' |
| Validation.InjectionNamesRejected | backend/tests/test_backup.py:148-155 | the six injection-style names of the tests are invalid identifiers |
| Validation.ValidIdentifierHasNoSpace | backend/validation.py:7 | a valid identifier holds no space or tab |
| BackupUtils.BackupType | backend/app/utils/backup_utils.py:111-116 | "full" iff the name starts with `full_`, "incremental" iff with `inc_`, "unknown" iff with neither (case-sensitive) |
| BackupUtils.SearchEightDigitsFrom | backend/app/utils/backup_utils.py:119 | the result is the leftmost position where eight digits start, or none exists |
| BackupUtils.StrptimeYmd | backend/app/utils/backup_utils.py:123 | a parse that succeeds always gives a real calendar date, whose year is the first four digits; which eight-digit strings succeed is stated by BackupUtils.StrptimeEightDigits |
| BackupUtils.StrptimeEightDigits | backend/app/utils/backup_utils.py:123 | `strptime` with the format `%Y%m%d` parses eight digits iff they form a real Gregorian date (year 1-9999, month 1-12, day within the month counting leap years), as year, month and day by position |
| BackupUtils.Fixed | backend/app/utils/backup_utils.py:124 | a zero-padded field has exactly its width and only digits |
| BackupUtils.FixedValue | backend/app/utils/backup_utils.py:124 | formatting the value of a digit string at its own width gives the string back |
| BackupUtils.FormattedDateCases | backend/app/utils/backup_utils.py:119-126 | no eight digits gives "unknown"; otherwise the leftmost eight digits become `YYYY-MM-DD` if a valid date and stay raw if not |
| BackupUtils.ClassifyBackup | backend/app/utils/backup_utils.py:109-128 | the type is "full", "incremental" or "unknown"; the date is "unknown" iff the name holds no eight digits in a row |
| BackupUtils.NonBlank | backend/app/utils/backup_utils.py:87-88 | kept lines are non-blank and no more numerous than the input |
| BackupUtils.NonBlankAppend | backend/app/utils/backup_utils.py:86-92 | dropping blank lines distributes over concatenation, so the order is kept |
| BackupUtils.NonBlankKeepsAll | backend/app/utils/backup_utils.py:87-88 | lines none of which is blank are all kept |
| BackupUtils.EntryOf | backend/app/utils/backup_utils.py:90-105 | the entry of a non-blank line: a name that is a word preceded by whitespace only and followed by whitespace or the end, the next word as size if any, `classify_backup` of the name as type and date |
| BackupUtils.EntryOfUnique | backend/app/utils/backup_utils.py:90-105 | an entry fits that description of a non-blank line iff it is the line's entry, so each line has exactly one |
| BackupUtils.ParsedEntries | backend/app/utils/backup_utils.py:83-107 | one entry per non-blank line after the header, each describing its line in that way |
| BackupUtils.LineEntry | backend/app/utils/backup_utils.py:90-105 | the item built for a non-blank line has as name a word preceded by whitespace only and followed by whitespace or the end of the line, as size the next word if there is one, and as type and date `classify_backup` of the name |
| BackupUtils.ParseBackupList | backend/app/utils/backup_utils.py:83-107 | the loop returns one entry per non-blank line after the first, in order |
| BackupUtils.HeaderAlone | backend/app/utils/backup_utils.py:86 | a header alone, with or without its line break, yields no entries |
| BackupUtils.ParseTable | backend/app/utils/backup_utils.py:86-105 | for a header and rows of cells: one entry per row in order, name = first cell, size = second cell or none, type and date = `classify_backup(name)` |
| BackupUtils.BlankLineIgnored | backend/app/utils/backup_utils.py:87-88 | inserting a blank or whitespace-only line after the header changes nothing |
| Catalogue.Keep | backend/worker.py:41 | a filter keeps exactly the matching records, with their multiplicities |
| Catalogue.KeepAppend | backend/worker.py:41 | filtering distributes over concatenation, so all other records keep their order |
| Catalogue.KeepAll | backend/worker.py:41 | a filter every record passes changes nothing |
| Catalogue.FirstIndexOf | backend/worker.py:46-50 | none iff no record has the id; otherwise the index of a record with it, and no earlier one has it |
| Catalogue.Lookup | backend/worker.py:46-50 | none iff no record has the id; otherwise a record with the id, at a position before which no record has it |
| Catalogue.Removable | backend/worker.py:29-39 | the guard of `remove_backup`: the id is found and, when its first record is full, no record names it as base; Catalogue.BackupManager.RemoveBackup returns exactly this |
| Catalogue.WithoutId | backend/worker.py:41 | no record with the id remains, and every other record keeps its multiplicity |
| Catalogue.ListOf | backend/worker.py:52-55 | `None` or "" gives the whole catalogue; a name gives exactly its records with their multiplicities |
| Catalogue.LookupAppend | backend/worker.py:25-27 | after an append an id finds what it found before; only a new id finds the new record, and a duplicate is shadowed |
| Catalogue.LookupKeep | backend/worker.py:41-50 | a filter that keeps every record of an id leaves its lookup unchanged |
| Catalogue.LookupWithoutId | backend/worker.py:41-50 | after removing an id it is not found, and every other id finds what it found before |
| Catalogue.RemoveTwice | backend/worker.py:31-34 | removing the same id a second time is refused |
| Catalogue.ListAfterAdd | backend/worker.py:25-27 | after an append, the new record joins the end of its own database's list and no other |
| Catalogue.DependencyScenario | backend/tests/test_backup.py:179-219 | a full backup with two increments is refused until both increments are removed, each step leaving the expected catalogue |
| Catalogue.BackupManager.constructor | backend/worker.py:11-19 | the catalogue starts as the loaded records |
| Catalogue.BackupManager.AddBackup | backend/worker.py:25-27 | exactly one record is appended at the end; earlier records are unchanged |
| Catalogue.BackupManager.GetBackup | backend/worker.py:46-50 | none iff no record has the id; otherwise the first record that has it |
| Catalogue.BackupManager.RemoveBackup | backend/worker.py:29-44 | true iff the id is present and, when its record is full, nothing names it as base; then every record of that id is filtered out, otherwise nothing changes |
| Catalogue.BackupManager.ListBackups | backend/worker.py:52-55 | the whole list for `None` or "", otherwise exactly the records of that database |
| Lineage.AppendKeepsBases | backend/worker.py:87-118 | appending a full record, or one whose base is found, keeps every base known |
| Lineage.RemovalKeepsBases | backend/worker.py:35-41 | removing an id that nobody names as base keeps every base known |
| Lineage.GuardedFullRemovalKeepsBases | backend/worker.py:29-44 | an accepted removal of a full record keeps every base known |
| Lineage.IncrementRemovalCanDangle | backend/worker.py:35-41 | an increment that is itself a base is removed, leaving the increment on it with an unknown base |
| ClickHouse.StatusVerdict | backend/worker.py:69-74 | finished iff BACKUP_CREATED or RESTORED; failed iff BACKUP_FAILED or RESTORE_FAILED; otherwise keep polling |
| ClickHouse.OtherStatusesKeepPolling | backend/worker.py:69-75 | the in-progress and cancelled statuses of the engine are read as keep polling |
| ClickHouse.FirstDecisive | backend/worker.py:63-75 | the first reading with no row or a terminal status, or none |
| ClickHouse.WaitForOperationAsWritten | backend/worker.py:62-75 | as written: still waiting only when there is no reading, and raises the missing-`sleep` error iff the first reading has a row whose status is not terminal |
| ClickHouse.PollOutcome | backend/worker.py:62-75 | as intended: still waiting iff no reading ends the loop; when it raises, the error is that of a reading whose status is a failure |
| ClickHouse.AsWrittenAgreesIff | backend/worker.py:3-75 | the loop as written behaves as intended iff the first reading already ends it |
| ClickHouse.AsWrittenFailsWhileCreating | backend/worker.py:74-75 | with readings CREATING_BACKUP then BACKUP_CREATED, the loop as written raises where it should return |
| ClickHouse.PollReturnsIff | backend/worker.py:62-75 | polling returns normally iff some reading has no row or a success status and every earlier one is in progress |
| ClickHouse.PollIgnoresLaterReadings | backend/worker.py:62-75 | readings after the one that ends the loop make no difference |
| ClickHouse.CommandText | backend/worker.py:78-124 | the statement the f-strings build; what it means is stated by ClickHouse.CommandTextIsUnwords and ClickHouse.ParseCommandText |
| ClickHouse.CommandTextIsUnwords | backend/worker.py:78-124 | each statement is its words joined by single spaces |
| ClickHouse.ParseCommandWords | backend/worker.py:78-124 | the words of any command are recognised as that command |
| ClickHouse.ParseCommandText | backend/worker.py:78-124 | a statement built from single-word names reads back as the command it was built from |
| ClickHouse.CommandTextInjective | backend/worker.py:78-124 | two different commands of single-word names never send the same text |
| ClickHouse.ValidDatabaseIsWord | backend/validation.py:7 | a database name that passes validation is a single word of the statement |
| ClickHouse.DestinationCanCarrySettings | backend/worker.py:78-102 | a destination carrying its own SETTINGS clause yields the incremental statement from a full backup |
| ClickHouse.Completion | backend/worker.py:82-85 | a call returns only after an answered statement; an asynchronous answered call always returns |
| ClickHouse.ClickHouseBackup.constructor | backend/worker.py:58-60 | the client starts with a fresh catalogue holding the loaded records |
| ClickHouse.ClickHouseBackup.WaitForOperation | backend/worker.py:62-75 | the polling loop ends as the first decisive reading says, or is still waiting when none is decisive |
| ClickHouse.ClickHouseBackup.Run | backend/worker.py:82-85 | the answer to the statement is unpacked, and a synchronous call waits on its operation id through the corrected loop of the Findings row |
| ClickHouse.ClickHouseBackup.BackupFull | backend/worker.py:77-95 | sends `BACKUP DATABASE db TO dest [ASYNC]`; appends one full record with no base and the first answer's id and status exactly when the call returns; keeps every base known; a synchronous call waits through the corrected loop of the Findings row |
| ClickHouse.ClickHouseBackup.BackupIncremental | backend/worker.py:97-118 | an unknown base raises before anything is sent and changes nothing; otherwise sends the statement with the base record's destination and appends one incremental record on that base when the call returns; keeps every base known; a synchronous call waits through the corrected loop of the Findings row |
| ClickHouse.ClickHouseBackup.Restore | backend/worker.py:120-129 | sends `RESTORE DATABASE db FROM src`, with the settings clause iff non-empty tables are allowed and `ASYNC` iff asynchronous; ends as the answer and the corrected polling loop of the Findings row say |
| ClickHouse.ClickHouseBackup.DeleteBackup | backend/worker.py:143-148 | the catalogue after the guarded removal; every base stays known when nothing named the id |

## Left out

- JSON persistence of the catalogue (`_load_meta`, `_save_meta`) is file I/O. The catalogue is an in-memory sequence, loaded records come in through the constructor, and saving is invisible.
- The ClickHouse driver is given as parameters: `execute(query)` and the list of answers to the status query. Errors the driver raises while polling are not modelled.
- The poll interval `poll_sec` is timing only; the model counts readings. The sleep itself fails as written, as the Findings row shows. The methods below wait through the corrected loop of that row.
- ClickHouse.ClickHouseBackup.Run: waits through the corrected loop. As written, the first reading whose status is not terminal raises `AttributeError` at backend/worker.py:75, so such a synchronous call raises instead of returning.
- ClickHouse.ClickHouseBackup.BackupFull: waits through the corrected loop. As written, a synchronous backup whose first reading is still in progress raises at backend/worker.py:75 and never reaches `add_backup` at line 87, so no record is written.
- ClickHouse.ClickHouseBackup.BackupIncremental: waits through the corrected loop. As written, a synchronous backup whose first reading is still in progress raises at backend/worker.py:75 and no record is written.
- ClickHouse.ClickHouseBackup.Restore: waits through the corrected loop. As written, a synchronous restore whose first reading is still in progress raises at backend/worker.py:75.
- The subprocess wrappers in backup_utils (`run_script`, `create_backup`, `restore_backup`, `delete_backup`, `list_backups`) call external processes.
- The HTTP layers (both FastAPI apps, the API router and its scraping of script output), the pydantic schemas and settings, the front end, logging and the environment module are not part of this model.
- `ClickHouseBackup.list_databases` and `ClickHouseBackup.list_backups` only run `SHOW DATABASES` or write log lines.
- Timestamps from `datetime.now()` and `datetime.utcnow()` are opaque strings given by the caller.
- Text is modelled as `seq<char>` with ASCII rules. Whitespace is space and tab, a line break is '\n', and `\d` is an ASCII digit. Python's Unicode whitespace, its other line boundaries (`\r`, `\x0b`, `\x1c`, ...) and its Unicode digits are not modelled.
- The model writes the year with four digits. `strftime` output for years below 1000 depends on the platform and is not modelled.
- The records are typed. A record loaded from the metadata file with a `type` other than "full" or "incremental", or with missing keys, is not modelled. The `if not backup` test in `remove_backup` is read as "not found", since every stored record is a non-empty dict.
- ClickHouse.CommandTextInjective: shown only for commands whose names, paths and base are single words. Destinations in the source are free text, and ClickHouse.DestinationCanCarrySettings shows that free text is ambiguous.
- Catalogue.BackupManager.ListBackups: returns a value. The Python method returns the catalogue list itself when no database is given, so the caller shares the list with the manager. That aliasing is not modelled.
- Validation.ValidateIdentifier: states that the call raises, not which exception. The source passes its message to `HTTPException` as the positional status code, so the exception it raises is not the intended 400 error.
- `op_id, status = ...[0]` with a row of the wrong width raises on unpacking. The model's answer is always a pair, no row, or a driver error.
- These are absent from the code and are not modelled: duplicate-id rejection, provisional `pending` records, later status and size updates, size accounting, dropping tables before a restore, physical deletion of backups (a TODO at backend/worker.py:147), concurrency and connection pooling.

## Findings

| source | as written | input that shows it | evidently intended | confidence | as-written member | corrected member |
|---|---|---|---|---|---|---|
| backend/worker.py:3, backend/worker.py:75 | `time` is imported from `datetime`, so `time` is the `datetime.time` class, which has no `sleep`. The first non-terminal status raises `AttributeError` instead of waiting. | status readings `CREATING_BACKUP`, then `BACKUP_CREATED`, on a synchronous backup | sleep `poll_sec` seconds, then read the status again until it is terminal or the row is gone | high (not executed) | ClickHouse.WaitForOperationAsWritten (ClickHouse.AsWrittenFailsWhileCreating, ClickHouse.AsWrittenAgreesIff) | ClickHouse.ClickHouseBackup.WaitForOperation (ClickHouse.PollReturnsIff) |
