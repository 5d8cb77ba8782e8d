// The ClickHouse side of the backup manager: the BACKUP and RESTORE
// statements it sends, how it reads the status of an operation from
// `system.backups`, and the backup, restore and delete operations that
// keep the catalogue in step. The engine is given as parameters: what it
// answers to each statement, and the rows it returns to successive status
// queries.

module ClickHouse {
  import opened Wrappers
  import opened PyStrings
  import opened Validation
  import opened Catalogue
  import opened Lineage

  // ----- status of an operation -----

  /** The first row of `SELECT status, error FROM system.backups WHERE id = ...`. */
  datatype StatusRow = StatusRow(status: string, error: string)

  /** What the polling loop does with one reading. */
  datatype Verdict = Finished | Failed | KeepPolling

  /** Classification of an engine status: done, failed, or still in progress. */
  function StatusVerdict(status: string): (v: Verdict)
    ensures v == Finished <==> status == "BACKUP_CREATED" || status == "RESTORED"
    ensures v == Failed <==> status == "BACKUP_FAILED" || status == "RESTORE_FAILED"
  {
    if status == "BACKUP_CREATED" || status == "RESTORED" then Finished
    else if status == "BACKUP_FAILED" || status == "RESTORE_FAILED" then Failed
    else KeepPolling
  }

  /**
   * Only the four statuses above end the loop; the in-progress statuses and
   * the cancellation statuses of the engine are read as "keep polling".
   */
  lemma OtherStatusesKeepPolling()
    ensures StatusVerdict("CREATING_BACKUP") == KeepPolling
    ensures StatusVerdict("RESTORING") == KeepPolling
    ensures StatusVerdict("BACKUP_CANCELLED") == KeepPolling
    ensures StatusVerdict("RESTORE_CANCELLED") == KeepPolling
  {
  }

  /** Errors an operation raises. */
  datatype OpError =
    | EngineError(message: string)              // the driver raised on the statement
    | NoResultRow                                // the statement returned no row to unpack
    | OperationFailed(opId: string, error: string)
    | BaseNotFound(baseId: string)
    | SleepUnavailable                           // `time.sleep` where `time` is `datetime.time`

  /** How a call ends: it returns, it raises, or it is still polling when the readings run out. */
  datatype CallOutcome = Returned | Raised(error: OpError) | StillWaiting

  /** A reading ends the polling loop: no row at all, or a terminal status. */
  predicate Decisive(reading: Option<StatusRow>) {
    reading.None? || StatusVerdict(reading.value.status) != KeepPolling
  }

  /** The index of the first reading that ends the loop. */
  function FirstDecisive(polls: seq<Option<StatusRow>>): (r: Option<nat>)
    ensures r == None <==> forall k :: 0 <= k < |polls| ==> !Decisive(polls[k])
    ensures r.Some? ==> r.value < |polls| && Decisive(polls[r.value])
    ensures r.Some? ==> forall k :: 0 <= k < r.value ==> !Decisive(polls[k])
  {
    if polls == [] then None
    else if Decisive(polls[0]) then Some(0)
    else match FirstDecisive(polls[1..])
      case None => None
      case Some(i) => Some(i + 1)
  }

  /** How a decisive reading ends the loop. */
  function Decide(opId: string, reading: Option<StatusRow>): CallOutcome {
    match reading
    case None => Returned
    case Some(row) =>
      if StatusVerdict(row.status) == Failed then Raised(OperationFailed(opId, row.error))
      else Returned
  }

  /**
   * `wait_for_operation` as it is evidently meant: poll until the row is gone
   * or the status is terminal, sleeping between readings.
   */
  function PollOutcome(opId: string, polls: seq<Option<StatusRow>>): (r: CallOutcome)
    ensures r == StillWaiting <==> forall k :: 0 <= k < |polls| ==> !Decisive(polls[k])
    ensures r.Raised? ==> exists i ::
      && 0 <= i < |polls| && polls[i].Some?
      && StatusVerdict(polls[i].value.status) == Failed
      && r.error == OperationFailed(opId, polls[i].value.error)
  {
    match FirstDecisive(polls)
    case None => StillWaiting
    case Some(i) => Decide(opId, polls[i])
  }

  /**
   * `wait_for_operation` as written: `time` is the `datetime.time` class, which
   * has no `sleep`, so the first non-terminal reading raises instead of waiting.
   */
  function WaitForOperationAsWritten(opId: string, polls: seq<Option<StatusRow>>): (r: CallOutcome)
    ensures r == StillWaiting <==> polls == []
    ensures r == Raised(SleepUnavailable) <==> polls != [] && !Decisive(polls[0])
  {
    if polls == [] then StillWaiting
    else if Decisive(polls[0]) then Decide(opId, polls[0])
    else Raised(SleepUnavailable)
  }

  /** The loop ends as intended exactly when the first reading already decides it. */
  lemma AsWrittenAgreesIff(opId: string, polls: seq<Option<StatusRow>>)
    ensures WaitForOperationAsWritten(opId, polls) == PollOutcome(opId, polls)
        <==> polls == [] || Decisive(polls[0])
  {
    if polls != [] && Decisive(polls[0]) {
      assert FirstDecisive(polls) == Some(0);
    }
  }

  /** An operation still being created, then created: the call as written raises. */
  lemma AsWrittenFailsWhileCreating(opId: string)
    ensures var polls := [Some(StatusRow("CREATING_BACKUP", "")), Some(StatusRow("BACKUP_CREATED", ""))];
      && WaitForOperationAsWritten(opId, polls) == Raised(SleepUnavailable)
      && PollOutcome(opId, polls) == Returned
  {
    var polls := [Some(StatusRow("CREATING_BACKUP", "")), Some(StatusRow("BACKUP_CREATED", ""))];
    assert polls[0].value.status != "BACKUP_CREATED" && polls[0].value.status != "RESTORED";
    assert polls[0].value.status != "BACKUP_FAILED" && polls[0].value.status != "RESTORE_FAILED";
    assert !Decisive(polls[0]);
    assert Decisive(polls[1]);
    assert FirstDecisive(polls) == Some(1);
  }

  /** Polling ends normally iff the first decisive reading is a missing row or a success. */
  lemma PollReturnsIff(opId: string, polls: seq<Option<StatusRow>>)
    ensures PollOutcome(opId, polls) == Returned <==>
      exists i :: 0 <= i < |polls| && (polls[i].None? || StatusVerdict(polls[i].value.status) == Finished)
        && forall k :: 0 <= k < i ==> !Decisive(polls[k])
  {
    match FirstDecisive(polls)
    case None =>
    case Some(i) =>
      if PollOutcome(opId, polls) != Returned {
        forall j | 0 <= j < |polls| && (polls[j].None? || StatusVerdict(polls[j].value.status) == Finished)
          ensures exists k :: 0 <= k < j && Decisive(polls[k])
        {
          assert j != i;
          if j < i {
            assert Decisive(polls[j]);
          }
        }
      }
  }

  /** Readings after the decisive one are never looked at. */
  lemma PollIgnoresLaterReadings(opId: string, polls: seq<Option<StatusRow>>, later: seq<Option<StatusRow>>)
    requires FirstDecisive(polls).Some?
    ensures PollOutcome(opId, polls + later) == PollOutcome(opId, polls)
  {
    var i := FirstDecisive(polls).value;
    var t := polls + later;
    assert forall k :: 0 <= k <= i ==> t[k] == polls[k];
    assert FirstDecisive(t) == Some(i);
  }

  // ----- statements sent to the engine -----

  /** The two kinds of statement the manager sends. */
  datatype Command =
    | BackupCommand(database: string, destination: string, baseDestination: Option<string>, asyncMode: bool)
    | RestoreCommand(database: string, source: string, allowNonEmpty: bool, asyncMode: bool)

  /** The statement text, as the f-strings of `backup_full`, `backup_incremental` and `restore` build it. */
  function CommandText(c: Command): string {
    match c
    case BackupCommand(db, dest, base, asyncMode) =>
      "BACKUP DATABASE " + db + " TO " + dest
      + (if base.Some? then " SETTINGS base_backup = " + base.value else "")
      + (if asyncMode then " ASYNC" else "")
    case RestoreCommand(db, src, allowNonEmpty, asyncMode) =>
      "RESTORE DATABASE " + db + " FROM " + src
      + (if allowNonEmpty then " SETTINGS allow_non_empty_tables=1" else "")
      + (if asyncMode then " ASYNC" else "")
  }

  /** The statement as a list of words. */
  function CommandWords(c: Command): seq<string> {
    match c
    case BackupCommand(db, dest, base, asyncMode) =>
      ["BACKUP", "DATABASE", db, "TO", dest]
      + (if base.Some? then ["SETTINGS", "base_backup", "=", base.value] else [])
      + (if asyncMode then ["ASYNC"] else [])
    case RestoreCommand(db, src, allowNonEmpty, asyncMode) =>
      ["RESTORE", "DATABASE", db, "FROM", src]
      + (if allowNonEmpty then ["SETTINGS", "allow_non_empty_tables=1"] else [])
      + (if asyncMode then ["ASYNC"] else [])
  }

  /** Reading a statement back from its words, undoing `CommandText`. */
  function ParseCommand(text: string): Option<Command> {
    ParseWords(Split(text))
  }

  /** Recognising the word list of a statement. */
  function ParseWords(all: seq<string>): Option<Command> {
    var asyncMode := |all| in {6, 8, 10} && all[|all| - 1] == "ASYNC";
    var w := if asyncMode then all[..|all| - 1] else all;
    if |w| == 5 && w[1] == "DATABASE" && w[0] == "BACKUP" && w[3] == "TO" then
      Some(BackupCommand(w[2], w[4], None, asyncMode))
    else if |w| == 5 && w[1] == "DATABASE" && w[0] == "RESTORE" && w[3] == "FROM" then
      Some(RestoreCommand(w[2], w[4], false, asyncMode))
    else if |w| == 9 && w[0] == "BACKUP" && w[1] == "DATABASE" && w[3] == "TO"
      && w[5] == "SETTINGS" && w[6] == "base_backup" && w[7] == "=" then
      Some(BackupCommand(w[2], w[4], Some(w[8]), asyncMode))
    else if |w| == 7 && w[0] == "RESTORE" && w[1] == "DATABASE" && w[3] == "FROM"
      && w[5] == "SETTINGS" && w[6] == "allow_non_empty_tables=1" then
      Some(RestoreCommand(w[2], w[4], true, asyncMode))
    else None
  }

  /** The names, paths and base a statement is built from are single words. */
  predicate WordComponents(c: Command) {
    match c
    case BackupCommand(db, dest, base, _) => IsWord(db) && IsWord(dest) && (base.Some? ==> IsWord(base.value))
    case RestoreCommand(db, src, _, _) => IsWord(db) && IsWord(src)
  }

  lemma UnwordsCons(w: string, rest: seq<string>)
    requires rest != []
    ensures Unwords([w] + rest) == w + " " + Unwords(rest)
  {
    assert ([w] + rest)[1..] == rest;
  }

  /** The first five words of a statement: verb, `DATABASE`, name, preposition, target. */
  lemma StatementHead(verb: string, db: string, preposition: string, target: string)
    ensures Unwords([verb, "DATABASE", db, preposition, target])
         == verb + " DATABASE " + db + " " + preposition + " " + target
  {
    UnwordsCons(preposition, [target]);
    UnwordsCons(db, [preposition, target]);
    UnwordsCons("DATABASE", [db, preposition, target]);
    UnwordsCons(verb, ["DATABASE", db, preposition, target]);
    assert " DATABASE " == " " + "DATABASE" + " ";
  }

  lemma BaseSetting(v: string)
    ensures " " + Unwords(["SETTINGS", "base_backup", "=", v]) == " SETTINGS base_backup = " + v
  {
    UnwordsCons("=", [v]);
    UnwordsCons("base_backup", ["=", v]);
    UnwordsCons("SETTINGS", ["base_backup", "=", v]);
    assert " SETTINGS " == " " + "SETTINGS" + " ";
    assert " SETTINGS base_backup = " == " SETTINGS " + "base_backup" + " " + "=" + " ";
  }

  lemma AllowSetting()
    ensures " " + Unwords(["SETTINGS", "allow_non_empty_tables=1"]) == " SETTINGS allow_non_empty_tables=1"
  {
    var ws := ["SETTINGS", "allow_non_empty_tables=1"];
    assert ws[1..] == ["allow_non_empty_tables=1"];
    assert Unwords(ws) == "SETTINGS" + " " + "allow_non_empty_tables=1";
    assert " SETTINGS " == " " + "SETTINGS" + " ";
    assert " SETTINGS allow_non_empty_tables=1" == " SETTINGS " + "allow_non_empty_tables=1";
  }

  /** Joining a head with optional further groups of words. */
  lemma UnwordsThree(head: seq<string>, mid: seq<string>, tail: seq<string>)
    requires head != []
    ensures Unwords(head + mid + tail)
         == Unwords(head) + (if mid == [] then "" else " " + Unwords(mid))
            + (if tail == [] then "" else " " + Unwords(tail))
  {
    if mid == [] {
      assert head + mid == head;
    } else {
      UnwordsAppend(head, mid);
    }
    if tail == [] {
      assert head + mid + tail == head + mid;
    } else {
      UnwordsAppend(head + mid, tail);
    }
  }

  lemma BackupTextIsUnwords(db: string, dest: string, base: Option<string>, asyncMode: bool)
    ensures CommandText(BackupCommand(db, dest, base, asyncMode))
         == Unwords(CommandWords(BackupCommand(db, dest, base, asyncMode)))
  {
    var mid := if base.Some? then ["SETTINGS", "base_backup", "=", base.value] else [];
    var tail := if asyncMode then ["ASYNC"] else [];
    var head := ["BACKUP", "DATABASE", db, "TO", dest];
    var midText := if base.Some? then " SETTINGS base_backup = " + base.value else "";
    var tailText := if asyncMode then " ASYNC" else "";
    StatementHead("BACKUP", db, "TO", dest);
    assert "BACKUP DATABASE " == "BACKUP" + " DATABASE ";
    assert " TO " == " " + "TO" + " ";
    assert "BACKUP DATABASE " + db + " TO " + dest == "BACKUP" + " DATABASE " + db + " " + "TO" + " " + dest;
    assert (if mid == [] then "" else " " + Unwords(mid)) == midText by {
      if base.Some? {
        BaseSetting(base.value);
      }
    }
    assert (if tail == [] then "" else " " + Unwords(tail)) == tailText;
    UnwordsThree(head, mid, tail);
    assert CommandWords(BackupCommand(db, dest, base, asyncMode)) == head + mid + tail;
    assert CommandText(BackupCommand(db, dest, base, asyncMode)) == Unwords(head) + midText + tailText;
  }

  lemma RestoreTextIsUnwords(db: string, src: string, allowNonEmpty: bool, asyncMode: bool)
    ensures CommandText(RestoreCommand(db, src, allowNonEmpty, asyncMode))
         == Unwords(CommandWords(RestoreCommand(db, src, allowNonEmpty, asyncMode)))
  {
    var mid := if allowNonEmpty then ["SETTINGS", "allow_non_empty_tables=1"] else [];
    var tail := if asyncMode then ["ASYNC"] else [];
    var head := ["RESTORE", "DATABASE", db, "FROM", src];
    var midText := if allowNonEmpty then " SETTINGS allow_non_empty_tables=1" else "";
    var tailText := if asyncMode then " ASYNC" else "";
    StatementHead("RESTORE", db, "FROM", src);
    assert "RESTORE DATABASE " == "RESTORE" + " DATABASE ";
    assert " FROM " == " " + "FROM" + " ";
    assert "RESTORE DATABASE " + db + " FROM " + src == "RESTORE" + " DATABASE " + db + " " + "FROM" + " " + src;
    assert (if mid == [] then "" else " " + Unwords(mid)) == midText by {
      if allowNonEmpty {
        AllowSetting();
      }
    }
    assert (if tail == [] then "" else " " + Unwords(tail)) == tailText;
    UnwordsThree(head, mid, tail);
    assert CommandWords(RestoreCommand(db, src, allowNonEmpty, asyncMode)) == head + mid + tail;
    assert CommandText(RestoreCommand(db, src, allowNonEmpty, asyncMode)) == Unwords(head) + midText + tailText;
  }

  /** The text is the words joined by single spaces. */
  lemma CommandTextIsUnwords(c: Command)
    ensures CommandText(c) == Unwords(CommandWords(c))
  {
    match c
    case BackupCommand(db, dest, base, asyncMode) => BackupTextIsUnwords(db, dest, base, asyncMode);
    case RestoreCommand(db, src, allowNonEmpty, asyncMode) => RestoreTextIsUnwords(db, src, allowNonEmpty, asyncMode);
  }

  lemma KeywordsAreWords()
    ensures IsWord("BACKUP") && IsWord("RESTORE") && IsWord("DATABASE") && IsWord("TO") && IsWord("FROM")
    ensures IsWord("SETTINGS") && IsWord("base_backup") && IsWord("=") && IsWord("allow_non_empty_tables=1")
    ensures IsWord("ASYNC")
  {
  }

  lemma ParseBackupWords(db: string, dest: string, base: Option<string>, asyncMode: bool)
    ensures ParseWords(CommandWords(BackupCommand(db, dest, base, asyncMode)))
         == Some(BackupCommand(db, dest, base, asyncMode))
  {
    var words := CommandWords(BackupCommand(db, dest, base, asyncMode));
    var plain := CommandWords(BackupCommand(db, dest, base, false));
    assert words == if asyncMode then plain + ["ASYNC"] else plain;
    if asyncMode {
      assert words[..|words| - 1] == plain;
    }
  }

  lemma ParseRestoreWords(db: string, src: string, allowNonEmpty: bool, asyncMode: bool)
    ensures ParseWords(CommandWords(RestoreCommand(db, src, allowNonEmpty, asyncMode)))
         == Some(RestoreCommand(db, src, allowNonEmpty, asyncMode))
  {
    var words := CommandWords(RestoreCommand(db, src, allowNonEmpty, asyncMode));
    var plain := CommandWords(RestoreCommand(db, src, allowNonEmpty, false));
    assert words == if asyncMode then plain + ["ASYNC"] else plain;
    if asyncMode {
      assert words[..|words| - 1] == plain;
    }
  }

  /** The word list of a command is recognised as that command, whatever its components. */
  lemma ParseCommandWords(c: Command)
    ensures ParseWords(CommandWords(c)) == Some(c)
  {
    match c
    case BackupCommand(db, dest, base, asyncMode) => ParseBackupWords(db, dest, base, asyncMode);
    case RestoreCommand(db, src, allowNonEmpty, asyncMode) => ParseRestoreWords(db, src, allowNonEmpty, asyncMode);
  }

  /** All words of a command are words when its components are. */
  lemma CommandWordsAreWords(c: Command)
    requires WordComponents(c)
    ensures forall k :: 0 <= k < |CommandWords(c)| ==> IsWord(CommandWords(c)[k])
  {
    KeywordsAreWords();
  }

  /**
   * When names, paths and the base are single words, the statement text
   * determines the command: reading it back gives the command it was built from.
   */
  lemma ParseCommandText(c: Command)
    requires WordComponents(c)
    ensures ParseCommand(CommandText(c)) == Some(c)
  {
    CommandTextIsUnwords(c);
    CommandWordsAreWords(c);
    SplitUnwords(CommandWords(c));
    ParseCommandWords(c);
  }

  /** Distinct commands built from single words send distinct statements. */
  lemma CommandTextInjective(c1: Command, c2: Command)
    requires WordComponents(c1) && WordComponents(c2)
    requires CommandText(c1) == CommandText(c2)
    ensures c1 == c2
  {
    ParseCommandText(c1);
    ParseCommandText(c2);
  }

  /** A database name that passes `validate_identifier` is one word of the statement. */
  lemma ValidDatabaseIsWord(db: string)
    requires IsValidIdentifier(db)
    ensures IsWord(db)
  {
    ValidIdentifierHasNoSpace(db);
  }

  /**
   * Destinations are not validated: a destination that carries its own
   * SETTINGS clause turns a full backup into the incremental statement.
   */
  lemma DestinationCanCarrySettings(db: string, dest: string, baseDest: string)
    ensures CommandText(BackupCommand(db, dest + " SETTINGS base_backup = " + baseDest, None, false))
         == CommandText(BackupCommand(db, dest, Some(baseDest), false))
  {
  }

  // ----- operations -----

  /** What the driver answers to a statement: its first row, no row, or an error it raises. */
  datatype Reply = Accepted(opId: string, status: string) | NoRows | Rejected(message: string)

  /** How an operation ends once its statement is answered: synchronous calls wait for the operation. */
  function Completion(reply: Reply, asyncMode: bool, polls: seq<Option<StatusRow>>): (r: CallOutcome)
    ensures r == Returned ==> reply.Accepted?
    ensures reply.Accepted? && asyncMode ==> r == Returned
  {
    match reply
    case Rejected(message) => Raised(EngineError(message))
    case NoRows => Raised(NoResultRow)
    case Accepted(opId, _) => if asyncMode then Returned else PollOutcome(opId, polls)
  }

  /** The client side of the manager, with its catalogue. */
  class ClickHouseBackup {
    const meta: BackupManager

    constructor (loaded: seq<BackupRecord>)
      ensures fresh(meta) && meta.backups == loaded
    {
      meta := new BackupManager(loaded);
    }

    /**
     * `wait_for_operation`: read the status again and again until the row
     * is gone or the status is terminal; `polls` are the successive readings.
     */
    method WaitForOperation(opId: string, polls: seq<Option<StatusRow>>) returns (outcome: CallOutcome)
      ensures outcome == PollOutcome(opId, polls)
    {
      var i := 0;
      while i < |polls|
        invariant 0 <= i <= |polls|
        invariant forall k :: 0 <= k < i ==> !Decisive(polls[k])
      {
        var rows := polls[i];
        if rows.None? {
          assert FirstDecisive(polls) == Some(i);
          return Returned;
        }
        var row := rows.value;
        if row.status == "BACKUP_CREATED" || row.status == "RESTORED" {
          assert FirstDecisive(polls) == Some(i);
          return Returned;
        }
        if row.status == "BACKUP_FAILED" || row.status == "RESTORE_FAILED" {
          assert FirstDecisive(polls) == Some(i);
          return Raised(OperationFailed(opId, row.error));
        }
        i := i + 1;
      }
      return StillWaiting;
    }

    /** Send a statement, unpack its first row and, unless asynchronous, wait for the operation. */
    method Run(query: string, asyncMode: bool, execute: string -> Reply, polls: seq<Option<StatusRow>>)
      returns (outcome: CallOutcome, reply: Reply)
      ensures reply == execute(query)
      ensures outcome == Completion(reply, asyncMode, polls)
    {
      reply := execute(query);
      if reply.Rejected? {
        return Raised(EngineError(reply.message)), reply;
      }
      if reply.NoRows? {
        return Raised(NoResultRow), reply;
      }
      outcome := Returned;
      if !asyncMode {
        outcome := WaitForOperation(reply.opId, polls);
      }
    }

    /**
     * `backup_full`: send `BACKUP DATABASE db TO dest [ASYNC]`; once the call
     * returns, record a full backup with the operation id and the status of
     * the first answer.
     */
    method BackupFull(database: string, destination: string, asyncMode: bool,
                      execute: string -> Reply, polls: seq<Option<StatusRow>>, timestamp: string)
      returns (outcome: CallOutcome, sent: string)
      modifies meta
      ensures sent == CommandText(BackupCommand(database, destination, None, asyncMode))
      ensures outcome == Completion(execute(sent), asyncMode, polls)
      ensures meta.backups ==
        if outcome == Returned && execute(sent).Accepted? then
          old(meta.backups) + [BackupRecord(execute(sent).opId, database, Full, destination, None,
                                            timestamp, execute(sent).status)]
        else old(meta.backups)
      ensures BasesKnown(old(meta.backups)) ==> BasesKnown(meta.backups)
    {
      sent := "BACKUP DATABASE " + database + " TO " + destination;
      if asyncMode {
        sent := sent + " ASYNC";
      }
      var reply;
      outcome, reply := Run(sent, asyncMode, execute, polls);
      if outcome == Returned {
        var info := BackupRecord(reply.opId, database, Full, destination, None, timestamp, reply.status);
        ghost var before := meta.backups;
        meta.AddBackup(info);
        if BasesKnown(before) {
          AppendKeepsBases(before, info);
        }
      }
    }

    /**
     * `backup_incremental`: an unknown base id is refused before anything is
     * sent; otherwise send the backup statement naming the base record's
     * destination and, once the call returns, record an increment on that base.
     */
    method BackupIncremental(database: string, destination: string, baseBackupId: string, asyncMode: bool,
                             execute: string -> Reply, polls: seq<Option<StatusRow>>, timestamp: string)
      returns (outcome: CallOutcome, sent: Option<string>)
      modifies meta
      ensures Lookup(old(meta.backups), baseBackupId) == None ==>
        outcome == Raised(BaseNotFound(baseBackupId)) && sent == None && meta.backups == old(meta.backups)
      ensures Lookup(old(meta.backups), baseBackupId).Some? ==>
        var base := Lookup(old(meta.backups), baseBackupId).value;
        && sent == Some(CommandText(BackupCommand(database, destination, Some(base.destination), asyncMode)))
        && outcome == Completion(execute(sent.value), asyncMode, polls)
        && meta.backups ==
          if outcome == Returned && execute(sent.value).Accepted? then
            old(meta.backups) + [BackupRecord(execute(sent.value).opId, database, Incremental, destination,
                                              Some(baseBackupId), timestamp, execute(sent.value).status)]
          else old(meta.backups)
      ensures BasesKnown(old(meta.backups)) ==> BasesKnown(meta.backups)
    {
      var base := meta.GetBackup(baseBackupId);
      if base == None {
        return Raised(BaseNotFound(baseBackupId)), None;
      }
      var baseExpr := base.value.destination;
      var query := "BACKUP DATABASE " + database + " TO " + destination + " SETTINGS base_backup = " + baseExpr;
      if asyncMode {
        query := query + " ASYNC";
      }
      ghost var head := "BACKUP DATABASE " + database + " TO " + destination;
      assert query == head + (" SETTINGS base_backup = " + baseExpr) + (if asyncMode then " ASYNC" else "");
      sent := Some(query);
      var reply;
      outcome, reply := Run(query, asyncMode, execute, polls);
      if outcome == Returned {
        var info := BackupRecord(reply.opId, database, Incremental, destination, Some(baseBackupId),
                                 timestamp, reply.status);
        ghost var before := meta.backups;
        meta.AddBackup(info);
        if BasesKnown(before) {
          AppendKeepsBases(before, info);
        }
      }
    }

    /** `restore`: send `RESTORE DATABASE db FROM src [SETTINGS allow_non_empty_tables=1] [ASYNC]`; nothing is recorded. */
    method Restore(database: string, source: string, allowNonEmpty: bool, asyncMode: bool,
                   execute: string -> Reply, polls: seq<Option<StatusRow>>)
      returns (outcome: CallOutcome, sent: string)
      ensures sent == CommandText(RestoreCommand(database, source, allowNonEmpty, asyncMode))
      ensures outcome == Completion(execute(sent), asyncMode, polls)
    {
      var opts := if allowNonEmpty then " SETTINGS allow_non_empty_tables=1" else "";
      sent := "RESTORE DATABASE " + database + " FROM " + source + opts;
      if asyncMode {
        sent := sent + " ASYNC";
      }
      var reply;
      outcome, reply := Run(sent, asyncMode, execute, polls);
    }

    /** `delete_backup`: the guarded removal from the catalogue; nothing physical is deleted. */
    method DeleteBackup(backupId: string)
      modifies meta
      ensures meta.backups ==
        if Removable(old(meta.backups), backupId) then WithoutId(old(meta.backups), backupId)
        else old(meta.backups)
      ensures BasesKnown(old(meta.backups)) && !HasDependent(old(meta.backups), backupId) ==>
        BasesKnown(meta.backups)
    {
      ghost var before := meta.backups;
      var removed := meta.RemoveBackup(backupId);
      if BasesKnown(before) && !HasDependent(before, backupId) {
        RemovalKeepsBases(before, backupId);
      }
      if !removed {
        return;
      }
    }
  }
}
