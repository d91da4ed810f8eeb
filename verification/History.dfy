/**
 The command history: a table of rows that only grows, and the Fish-style query over it. SQLite enters
 as the meaning of its statements on the sequence of rows.
 */
module History {
  import opened Prelude
  import Like

  datatype Source = User | SuggestHistory | SuggestKnowledge | SuggestLlm

  datatype Row = Row(
    id: nat, host: string, user: string, cwd: Option<string>, command: string,
    timestamp: int, exitCode: Option<int>, duration: Option<nat>, source: Source)

  datatype Context = Context(host: string, cwd: Option<string>, prefix: string)

  datatype Suggestion = Suggestion(command: string, sourceId: nat, score: real)

  datatype HistoryError = Sqlite | BadClock

  function Score(sameCwd: bool): real {
    if sameCwd then 0.9 else 0.4
  }

  // ---- what a suggestion is ---------------------------------------------------------------------

  /** A row that completes the typed prefix on this host, in the first pass also in this directory. */
  ghost predicate Completes(row: Row, ctx: Context, sameCwd: bool) {
    && row.host == ctx.host
    && (sameCwd ==> ctx.cwd.Some? && row.cwd == ctx.cwd)
    && Like.IsFoldedPrefix(ctx.prefix, row.command)
    && row.command != ctx.prefix
  }

  ghost predicate AnyCompletes(rows: seq<Row>, ctx: Context, sameCwd: bool) {
    exists i :: 0 <= i < |rows| && Completes(rows[i], ctx, sameCwd)
  }

  /** Row `i` is a newest completion; rows of equal age are all newest. */
  ghost predicate IsNewest(rows: seq<Row>, ctx: Context, sameCwd: bool, i: int) {
    && 0 <= i < |rows| && Completes(rows[i], ctx, sameCwd)
    && forall j :: 0 <= j < |rows| && Completes(rows[j], ctx, sameCwd) ==> rows[j].timestamp <= rows[i].timestamp
  }

  /** The rows Fish would offer: a newest completion in this directory or, failing any, on this host. */
  ghost predicate IsFishChoice(rows: seq<Row>, ctx: Context, i: int) {
    && ctx.prefix != []
    && IsNewest(rows, ctx, AnyCompletes(rows, ctx, true), i)
  }

  /** The answers a query may give. */
  ghost predicate IsAnswer(rows: seq<Row>, ctx: Context, answer: Option<Suggestion>) {
    match answer
    case None => ctx.prefix == [] || !AnyCompletes(rows, ctx, false)
    case Some(s) =>
      exists i :: IsFishChoice(rows, ctx, i)
        && s == Suggestion(rows[i].command, rows[i].id, Score(AnyCompletes(rows, ctx, true)))
  }

  // ---- the table --------------------------------------------------------------------------------

  /** `ids` grow by one with every row (`AUTOINCREMENT` without deletions). */
  ghost predicate WellNumbered(rows: seq<Row>) {
    forall i :: 0 <= i < |rows| ==> rows[i].id == i + 1
  }

  class History {
    var rows: seq<Row>

    ghost predicate Valid()
      reads this
    {
      WellNumbered(rows)
    }

    constructor ()
      ensures Valid() && rows == []
    {
      rows := [];
    }

    /** The clock reads `now`, or stands before the epoch (`None`); `fails` says whether SQLite refuses. */
    method Record(entry: Row, now: Option<nat>, fails: bool) returns (r: Result<nat, HistoryError>)
      requires Valid()
      modifies this
      ensures Valid()
      ensures entry.timestamp == 0 && now.None? ==> r == Err(BadClock)
      ensures entry.timestamp != 0 || now.Some? ==> (r.Err? <==> fails)
      ensures r.Err? ==> rows == old(rows)
      ensures r.Ok? ==> r.value == |old(rows)| + 1 && rows == old(rows) + [Stored(entry, now, r.value)]
    {
      var row := entry;
      if row.timestamp == 0 {
        if now.None? {
          return Err(BadClock);
        }
        row := row.(timestamp := now.value);
      }
      if fails {
        return Err(Sqlite);
      }
      row := row.(id := |rows| + 1);
      rows := rows + [row];
      return Ok(row.id);
    }

    method SetExitCode(id: nat, exitCode: int, fails: bool) returns (r: Result<(), HistoryError>)
      requires Valid()
      modifies this
      ensures Valid()
      ensures r.Err? <==> fails
      ensures rows == if r.Ok? then WithExitCode(old(rows), id, exitCode) else old(rows)
    {
      if fails {
        return Err(Sqlite);
      }
      rows := WithExitCode(rows, id, exitCode);
      return Ok(());
    }

    /**
     `SELECT id, command ... ORDER BY timestamp DESC LIMIT 1`; equal timestamps come in any order. `mayFail`
     says whether SQLite is in a state to refuse.
     */
    method QueryNewest(ctx: Context, sameCwd: bool, likeArg: string, mayFail: bool)
      returns (r: Result<Option<Row>, HistoryError>)
      requires likeArg == Like.Escaped(ctx.prefix) + [Like.ANY_RUN]
      requires sameCwd ==> ctx.cwd.Some?
      ensures r.Err? ==> mayFail
      ensures r.Ok? && r.value.None? ==> !AnyCompletes(rows, ctx, sameCwd)
      ensures r.Ok? && r.value.Some? ==> exists i :: IsNewest(rows, ctx, sameCwd, i) && r.value == Some(rows[i])
    {
      if mayFail {
        if * {
          return Err(Sqlite);
        }
      }
      var best: Option<int> := None;
      for i := 0 to |rows|
        invariant best.None? ==> forall j :: 0 <= j < i ==> !Completes(rows[j], ctx, sameCwd)
        invariant best.Some? ==> IsNewest(rows[..i], ctx, sameCwd, best.value)
      {
        var row := rows[i];
        Like.EscapedPrefixMatches(ctx.prefix, row.command);
        assert rows[..i + 1] == rows[..i] + [row];
        if row.host == ctx.host && (sameCwd ==> row.cwd == ctx.cwd)
          && Like.Matches(likeArg, row.command) && row.command != ctx.prefix
        {
          if best.None? || row.timestamp > rows[best.value].timestamp {
            best := Some(i);
          } else if row.timestamp == rows[best.value].timestamp {
            if * {
              best := Some(i);
            }
          }
        }
      }
      assert rows[..|rows|] == rows;
      if best.None? {
        return Ok(None);
      }
      return Ok(Some(rows[best.value]));
    }

    method Suggest(ctx: Context, mayFail: bool) returns (r: Result<Option<Suggestion>, HistoryError>)
      ensures r.Err? ==> mayFail
      ensures r.Ok? ==> IsAnswer(rows, ctx, r.value)
    {
      if ctx.prefix == [] {
        return Ok(None);
      }
      var pattern := Like.LikeEscape(ctx.prefix);
      var likeArg := pattern + [Like.ANY_RUN];
      if ctx.cwd.Some? {
        var here := QueryNewest(ctx, true, likeArg, mayFail);
        if here.Err? {
          return Err(here.error);
        }
        if here.value.Some? {
          var row := here.value.value;
          return Ok(Some(Suggestion(row.command, row.id, Score(true))));
        }
      }
      assert !AnyCompletes(rows, ctx, true);
      var anywhere := QueryNewest(ctx, false, likeArg, mayFail);
      if anywhere.Err? {
        return Err(anywhere.error);
      }
      if anywhere.value.None? {
        return Ok(None);
      }
      var row := anywhere.value.value;
      return Ok(Some(Suggestion(row.command, row.id, Score(false))));
    }
  }

  /** The row that `Record` stores. */
  function Stored(entry: Row, now: Option<nat>, id: nat): Row
    requires entry.timestamp == 0 ==> now.Some?
  {
    entry.(id := id, timestamp := if entry.timestamp == 0 then now.value else entry.timestamp)
  }

  function MarkedRow(row: Row, id: nat, exitCode: int): Row {
    if row.id == id then row.(exitCode := Some(exitCode)) else row
  }

  function WithExitCode(rows: seq<Row>, id: nat, exitCode: int): (r: seq<Row>)
    ensures |r| == |rows|
    ensures forall i :: 0 <= i < |rows| ==> r[i] == MarkedRow(rows[i], id, exitCode)
  {
    seq(|rows|, i requires 0 <= i < |rows| => MarkedRow(rows[i], id, exitCode))
  }

  /** Only the exit code of the row of that number is set, and everything else stays. */
  lemma ExitCodeIsSet(rows: seq<Row>, id: nat, exitCode: int, i: nat)
    requires i < |rows|
    ensures var marked := WithExitCode(rows, id, exitCode)[i];
            && (rows[i].id == id ==> marked.exitCode == Some(exitCode))
            && (rows[i].id != id ==> marked == rows[i])
            && marked.(exitCode := None) == rows[i].(exitCode := None)
  {
  }

  // ---- the statements ---------------------------------------------------------------------------

  /** The condition of both statements, the first of them with a directory. */
  ghost predicate Selects(row: Row, host: string, cwd: Option<string>, prefix: string) {
    && row.host == host
    && (cwd.Some? ==> row.cwd == cwd)
    && Like.Matches(Like.Escaped(prefix) + ['%'], row.command)
    && row.command != prefix
  }

  /** What `ORDER BY timestamp DESC LIMIT 1` may return. */
  ghost predicate IsFirst(rows: seq<Row>, host: string, cwd: Option<string>, prefix: string, row: Row) {
    && row in rows && Selects(row, host, cwd, prefix)
    && forall other :: other in rows && Selects(other, host, cwd, prefix) ==> other.timestamp <= row.timestamp
  }

  lemma SelectsIff(row: Row, ctx: Context, sameCwd: bool)
    requires sameCwd ==> ctx.cwd.Some?
    ensures Selects(row, ctx.host, if sameCwd then ctx.cwd else None, ctx.prefix) <==> Completes(row, ctx, sameCwd)
  {
    Like.EscapedPrefixMatches(ctx.prefix, row.command);
  }

  ghost predicate NoneSelected(rows: seq<Row>, host: string, cwd: Option<string>, prefix: string) {
    forall row :: row in rows ==> !Selects(row, host, cwd, prefix)
  }

  lemma NoneSelectedIff(rows: seq<Row>, ctx: Context, sameCwd: bool)
    requires sameCwd ==> ctx.cwd.Some?
    ensures NoneSelected(rows, ctx.host, if sameCwd then ctx.cwd else None, ctx.prefix)
       <==> !AnyCompletes(rows, ctx, sameCwd)
  {
    forall row
      ensures Selects(row, ctx.host, if sameCwd then ctx.cwd else None, ctx.prefix) <==> Completes(row, ctx, sameCwd)
    {
      SelectsIff(row, ctx, sameCwd);
    }
    if AnyCompletes(rows, ctx, sameCwd) {
      var i :| 0 <= i < |rows| && Completes(rows[i], ctx, sameCwd);
      assert rows[i] in rows;
    }
  }

  lemma FirstIff(rows: seq<Row>, ctx: Context, sameCwd: bool, i: nat)
    requires (sameCwd ==> ctx.cwd.Some?) && i < |rows|
    ensures IsFirst(rows, ctx.host, if sameCwd then ctx.cwd else None, ctx.prefix, rows[i])
       <==> IsNewest(rows, ctx, sameCwd, i)
  {
    var cwd := if sameCwd then ctx.cwd else None;
    forall row
      ensures Selects(row, ctx.host, cwd, ctx.prefix) <==> Completes(row, ctx, sameCwd)
    {
      SelectsIff(row, ctx, sameCwd);
    }
    if IsNewest(rows, ctx, sameCwd, i) {
      forall other | other in rows && Selects(other, ctx.host, cwd, ctx.prefix)
        ensures other.timestamp <= rows[i].timestamp
      {
        var j :| 0 <= j < |rows| && rows[j] == other;
      }
    }
  }

  /** The row behind an answer: returned by the first statement, or by the second if the first returned none. */
  ghost predicate IsSource(rows: seq<Row>, ctx: Context, row: Row, score: real) {
    || (ctx.cwd.Some? && score == 0.9 && IsFirst(rows, ctx.host, ctx.cwd, ctx.prefix, row))
    || (score == 0.4 && IsFirst(rows, ctx.host, None, ctx.prefix, row)
        && (ctx.cwd.Some? ==> NoneSelected(rows, ctx.host, ctx.cwd, ctx.prefix)))
  }

  /** The permitted answers are those of the two statements, one after the other. */
  lemma AnswersAreSelected(rows: seq<Row>, ctx: Context, s: Suggestion)
    requires ctx.prefix != []
    ensures IsAnswer(rows, ctx, Some(s))
       <==> exists row :: IsSource(rows, ctx, row, s.score) && s.command == row.command && s.sourceId == row.id
    ensures IsAnswer(rows, ctx, None) <==> NoneSelected(rows, ctx.host, None, ctx.prefix)
  {
    NoneSelectedIff(rows, ctx, false);
    var same := AnyCompletes(rows, ctx, true);
    if ctx.cwd.Some? {
      NoneSelectedIff(rows, ctx, true);
    }
    if i :| IsFishChoice(rows, ctx, i) && s == Suggestion(rows[i].command, rows[i].id, Score(same)) {
      FirstIff(rows, ctx, same, i);
      assert IsSource(rows, ctx, rows[i], s.score);
    }
    if row :| IsSource(rows, ctx, row, s.score) && s.command == row.command && s.sourceId == row.id {
      SourceIsChoice(rows, ctx, row, s);
    }
  }

  /** An empty line is never completed. */
  lemma NoAnswerToNothing(rows: seq<Row>, host: string, cwd: Option<string>, answer: Option<Suggestion>)
    ensures IsAnswer(rows, Context(host, cwd, []), answer) <==> answer.None?
  {
  }

  lemma SourceIsChoice(rows: seq<Row>, ctx: Context, row: Row, s: Suggestion)
    requires ctx.prefix != [] && IsSource(rows, ctx, row, s.score) && s.command == row.command && s.sourceId == row.id
    ensures IsAnswer(rows, ctx, Some(s))
  {
    var same := s.score == 0.9;
    assert row in rows;
    var i :| 0 <= i < |rows| && rows[i] == row;
    FirstIff(rows, ctx, same, i);
    if ctx.cwd.Some? {
      NoneSelectedIff(rows, ctx, true);
    }
    assert same == AnyCompletes(rows, ctx, true);
    assert IsFishChoice(rows, ctx, i);
  }

  // ---- what records do to later answers ---------------------------------------------------------

  /** A row that completes nothing here: of another host, or whose command does not extend the prefix. */
  ghost predicate Irrelevant(row: Row, ctx: Context) {
    !Completes(row, ctx, false)
  }

  ghost predicate AllIrrelevant(rows: seq<Row>, ctx: Context) {
    forall i :: 0 <= i < |rows| ==> Irrelevant(rows[i], ctx)
  }

  /** Where row `i` stands once `count` rows have been put in at `at`. */
  function Shifted(i: int, at: nat, count: nat): int {
    if i < at then i else i + count
  }

  /** `all` is `kept` with irrelevant rows put in. */
  ghost predicate Extends(kept: seq<Row>, all: seq<Row>, at: nat, count: nat, ctx: Context) {
    && at <= |kept| && |all| == |kept| + count
    && (forall i :: 0 <= i < |kept| ==> all[Shifted(i, at, count)] == kept[i])
    && (forall j :: at <= j < at + count ==> Irrelevant(all[j], ctx))
  }

  lemma RelevantRowIsKept(kept: seq<Row>, all: seq<Row>, at: nat, count: nat, ctx: Context, same: bool, j: int)
    returns (i: int)
    requires Extends(kept, all, at, count, ctx) && 0 <= j < |all| && Completes(all[j], ctx, same)
    ensures 0 <= i < |kept| && Shifted(i, at, count) == j && kept[i] == all[j]
  {
    i := if j < at then j else j - count;
    assert !(at <= j < at + count);
    assert all[Shifted(i, at, count)] == kept[i];
  }

  lemma AnyCompletesKept(kept: seq<Row>, all: seq<Row>, at: nat, count: nat, ctx: Context, same: bool)
    requires Extends(kept, all, at, count, ctx)
    ensures AnyCompletes(all, ctx, same) <==> AnyCompletes(kept, ctx, same)
  {
    if AnyCompletes(all, ctx, same) {
      var j :| 0 <= j < |all| && Completes(all[j], ctx, same);
      var i := RelevantRowIsKept(kept, all, at, count, ctx, same, j);
    }
    if AnyCompletes(kept, ctx, same) {
      var i :| 0 <= i < |kept| && Completes(kept[i], ctx, same);
      assert Completes(all[Shifted(i, at, count)], ctx, same);
    }
  }

  lemma NewestKept(kept: seq<Row>, all: seq<Row>, at: nat, count: nat, ctx: Context, same: bool, i: int)
    requires Extends(kept, all, at, count, ctx) && 0 <= i < |kept|
    ensures IsNewest(all, ctx, same, Shifted(i, at, count)) <==> IsNewest(kept, ctx, same, i)
  {
    if IsNewest(kept, ctx, same, i) {
      forall j | 0 <= j < |all| && Completes(all[j], ctx, same)
        ensures all[j].timestamp <= kept[i].timestamp
      {
        var k := RelevantRowIsKept(kept, all, at, count, ctx, same, j);
      }
    }
    if IsNewest(all, ctx, same, Shifted(i, at, count)) {
      forall k | 0 <= k < |kept| && Completes(kept[k], ctx, same)
        ensures kept[k].timestamp <= kept[i].timestamp
      {
        assert Completes(all[Shifted(k, at, count)], ctx, same);
      }
    }
  }

  /** The choices are the same rows, at their new places. */
  lemma ChoiceKept(kept: seq<Row>, all: seq<Row>, at: nat, count: nat, ctx: Context, i: int)
    requires Extends(kept, all, at, count, ctx) && 0 <= i < |kept|
    ensures IsFishChoice(all, ctx, Shifted(i, at, count)) <==> IsFishChoice(kept, ctx, i)
  {
    AnyCompletesKept(kept, all, at, count, ctx, true);
    NewestKept(kept, all, at, count, ctx, AnyCompletes(kept, ctx, true), i);
  }

  lemma AnswersKept(kept: seq<Row>, all: seq<Row>, at: nat, count: nat, ctx: Context, answer: Option<Suggestion>)
    requires Extends(kept, all, at, count, ctx)
    ensures IsAnswer(all, ctx, answer) <==> IsAnswer(kept, ctx, answer)
  {
    AnyCompletesKept(kept, all, at, count, ctx, true);
    AnyCompletesKept(kept, all, at, count, ctx, false);
    if answer.Some? {
      var score := Score(AnyCompletes(kept, ctx, true));
      if IsAnswer(kept, ctx, answer) {
        var i :| IsFishChoice(kept, ctx, i) && answer.value == Suggestion(kept[i].command, kept[i].id, score);
        ChoiceKept(kept, all, at, count, ctx, i);
        assert all[Shifted(i, at, count)] == kept[i];
      }
      if IsAnswer(all, ctx, answer) {
        var j :| IsFishChoice(all, ctx, j) && answer.value == Suggestion(all[j].command, all[j].id, score);
        var i := RelevantRowIsKept(kept, all, at, count, ctx, AnyCompletes(all, ctx, true), j);
        ChoiceKept(kept, all, at, count, ctx, i);
      }
    }
  }

  /** Rows that complete nothing here change no permitted answer, wherever among the others they were recorded. */
  lemma IrrelevantRowsKeepAnswers(before: seq<Row>, more: seq<Row>, after: seq<Row>, ctx: Context,
                                  answer: Option<Suggestion>)
    requires AllIrrelevant(more, ctx)
    ensures IsAnswer(before + more + after, ctx, answer) <==> IsAnswer(before + after, ctx, answer)
  {
    var kept, all := before + after, before + more + after;
    forall j | |before| <= j < |before| + |more|
      ensures Irrelevant(all[j], ctx)
    {
      assert all[j] == more[j - |before|];
    }
    assert Extends(kept, all, |before|, |more|, ctx);
    AnswersKept(kept, all, |before|, |more|, ctx, answer);
  }

  /**
   A completion in the current directory (on this host, if no directory is known) that is recorded last is
   the only choice exactly if it is newer than all other completions there.
   */
  lemma NewestRecordWins(rows: seq<Row>, row: Row, ctx: Context)
    requires ctx.prefix != [] && Completes(row, ctx, ctx.cwd.Some?)
    ensures (forall i :: IsFishChoice(rows + [row], ctx, i) <==> i == |rows|)
       <==> (forall j :: 0 <= j < |rows| && Completes(rows[j], ctx, ctx.cwd.Some?) ==>
               rows[j].timestamp < row.timestamp)
  {
    var all := rows + [row];
    var same := ctx.cwd.Some?;
    assert all[|rows|] == row && Completes(all[|rows|], ctx, same);
    assert same ==> AnyCompletes(all, ctx, true);
    assert !same ==> !AnyCompletes(all, ctx, true);
    assert forall j :: 0 <= j < |rows| ==> all[j] == rows[j];
    if forall i :: IsFishChoice(all, ctx, i) <==> i == |rows| {
      OnlyChoiceIsNewer(all, ctx, same);
    }
    if forall j :: 0 <= j < |rows| && Completes(rows[j], ctx, same) ==> rows[j].timestamp < row.timestamp {
      forall i
        ensures IsFishChoice(all, ctx, i) <==> i == |rows|
      {
        NewerIsOnlyChoice(all, ctx, same, i);
      }
    }
  }

  lemma NewerIsOnlyChoice(all: seq<Row>, ctx: Context, same: bool, i: int)
    requires all != [] && ctx.prefix != [] && AnyCompletes(all, ctx, true) == same
    requires Completes(all[|all| - 1], ctx, same)
    requires forall j :: 0 <= j < |all| - 1 && Completes(all[j], ctx, same) ==>
      all[j].timestamp < all[|all| - 1].timestamp
    ensures IsFishChoice(all, ctx, i) <==> i == |all| - 1
  {
  }

  lemma OnlyChoiceIsNewer(all: seq<Row>, ctx: Context, same: bool)
    requires all != [] && ctx.prefix != [] && AnyCompletes(all, ctx, true) == same
    requires forall i :: IsFishChoice(all, ctx, i) <==> i == |all| - 1
    ensures forall j :: 0 <= j < |all| - 1 && Completes(all[j], ctx, same) ==>
      all[j].timestamp < all[|all| - 1].timestamp
  {
    var last := |all| - 1;
    assert IsFishChoice(all, ctx, last);
    forall j | 0 <= j < last && Completes(all[j], ctx, same)
      ensures all[j].timestamp < all[last].timestamp
    {
      if all[j].timestamp == all[last].timestamp {
        assert IsNewest(all, ctx, same, j);
        assert IsFishChoice(all, ctx, j);
      }
    }
  }

  /** Exit codes play no part in what is suggested. */
  lemma ExitCodeIsIrrelevant(rows: seq<Row>, id: nat, exitCode: int, ctx: Context, i: int)
    ensures IsFishChoice(WithExitCode(rows, id, exitCode), ctx, i) <==> IsFishChoice(rows, ctx, i)
  {
    var r := WithExitCode(rows, id, exitCode);
    forall j, same | 0 <= j < |rows|
      ensures Completes(r[j], ctx, same) <==> Completes(rows[j], ctx, same)
    {
    }
    assert AnyCompletes(r, ctx, true) <==> AnyCompletes(rows, ctx, true) by {
      if AnyCompletes(r, ctx, true) {
        var j :| 0 <= j < |r| && Completes(r[j], ctx, true);
        assert Completes(rows[j], ctx, true);
      }
      if AnyCompletes(rows, ctx, true) {
        var j :| 0 <= j < |rows| && Completes(rows[j], ctx, true);
        assert Completes(r[j], ctx, true);
      }
    }
  }

  // ---- the client's case-sensitive filter -------------------------------------------------------

  /** `refresh_suggestion` keeps an answer only if it extends the line with matching case. */
  predicate Survives(prefix: string, command: string) {
    prefix <= command && |command| > |prefix|
  }

  /**
   Every permitted answer survives the filter exactly when all newest rows of the pass that answers begin
   with the prefix in its own case. Otherwise a suggestion may be lost although one exists.
   */
  lemma FilterKeepsAnswerIff(rows: seq<Row>, ctx: Context)
    requires ctx.prefix != [] && AnyCompletes(rows, ctx, false)
    ensures (forall s: Suggestion :: IsAnswer(rows, ctx, Some(s)) ==> Survives(ctx.prefix, s.command))
       <==> (forall i :: IsFishChoice(rows, ctx, i) ==> ctx.prefix <= rows[i].command)
  {
    var score := Score(AnyCompletes(rows, ctx, true));
    if forall s: Suggestion :: IsAnswer(rows, ctx, Some(s)) ==> Survives(ctx.prefix, s.command) {
      forall i | IsFishChoice(rows, ctx, i)
        ensures ctx.prefix <= rows[i].command
      {
        var s := Suggestion(rows[i].command, rows[i].id, score);
        assert IsAnswer(rows, ctx, Some(s));
      }
    }
    if forall i :: IsFishChoice(rows, ctx, i) ==> ctx.prefix <= rows[i].command {
      forall s: Suggestion | IsAnswer(rows, ctx, Some(s))
        ensures Survives(ctx.prefix, s.command)
      {
        var i :| IsFishChoice(rows, ctx, i) && s == Suggestion(rows[i].command, rows[i].id, score);
        assert Completes(rows[i], ctx, AnyCompletes(rows, ctx, true));
        assert ctx.prefix < rows[i].command;
      }
    }
  }

  /** Does some command of this host properly extend the line, case included? */
  ghost predicate CanBeCompleted(rows: seq<Row>, ctx: Context) {
    exists i :: 0 <= i < |rows| && rows[i].host == ctx.host && Survives(ctx.prefix, rows[i].command)
  }

  /** What is left of an answer after the filter. */
  predicate IsKept(ctx: Context, answer: Option<Suggestion>) {
    answer.Some? && Survives(ctx.prefix, answer.value.command)
  }

  lemma PrefixIsFolded(prefix: string, s: string)
    requires prefix <= s
    ensures Like.IsFoldedPrefix(prefix, s)
  {
  }

  /**
   If all rows of this host that match the line up to case also match it exactly, every answer that the
   query may give leads to a suggestion as soon as there is a command to suggest.
   */
  lemma ExactCaseIsComplete(rows: seq<Row>, ctx: Context, answer: Option<Suggestion>)
    requires ctx.prefix != [] && IsAnswer(rows, ctx, answer)
    requires forall i :: 0 <= i < |rows| && Completes(rows[i], ctx, false) ==> ctx.prefix <= rows[i].command
    ensures IsKept(ctx, answer) <==> CanBeCompleted(rows, ctx)
  {
    if CanBeCompleted(rows, ctx) {
      var i :| 0 <= i < |rows| && rows[i].host == ctx.host && Survives(ctx.prefix, rows[i].command);
      PrefixIsFolded(ctx.prefix, rows[i].command);
      assert Completes(rows[i], ctx, false);
    }
    if answer.Some? {
      var i :| IsFishChoice(rows, ctx, i)
        && answer.value == Suggestion(rows[i].command, rows[i].id, Score(AnyCompletes(rows, ctx, true)));
      assert Completes(rows[i], ctx, false);
      assert ctx.prefix < rows[i].command;
    }
  }

  /** The filter can lose a suggestion: the newest row differs in case and hides an exact completion. */
  lemma FilterLosesSuggestion()
    ensures var ctx := Context("h", None, "git");
            var exact := Row(1, "h", "u", None, "git status", 100, None, None, User);
            var shouted := Row(2, "h", "u", None, "GIT LOG", 200, None, None, User);
            && Survives(ctx.prefix, exact.command) && Completes(exact, ctx, false)
            && IsFishChoice([exact, shouted], ctx, 1) && !Survives(ctx.prefix, shouted.command)
  {
    var ctx := Context("h", None, "git");
    var exact := Row(1, "h", "u", None, "git status", 100, None, None, User);
    var shouted := Row(2, "h", "u", None, "GIT LOG", 200, None, None, User);
    var rows := [exact, shouted];
    assert Like.SameFolded('g', 'G') && Like.SameFolded('i', 'I') && Like.SameFolded('t', 'T');
    assert Completes(rows[1], ctx, false);
    assert !AnyCompletes(rows, ctx, true);
    assert forall j :: 0 <= j < |rows| ==> rows[j].timestamp <= rows[1].timestamp;
    assert !(ctx.prefix <= shouted.command) by {
      assert shouted.command[0] != ctx.prefix[0];
    }
  }
}
