/** The tracing hook's command serialisation: how one command becomes the
    `redis.cmd` tag of its span, and how a pipeline becomes the `redis.cmds`
    tag and the name of the pipeline span. Spans are returned as records of
    the values the hook would tag them with. */
module Hook {
  import opened Bytes
  import opened Unique

  datatype Option<T> = None | Some(value: T)

  /** A command as the hook sees it: its full name, each argument already
      rendered by the package's `AppendArg`, and the message of its
      error, if it has one. */
  datatype Cmd = Cmd(fullName: Bytes, args: seq<Bytes>, err: Option<Bytes>)

  /** The span `BeforeProcess` starts: its operation name and its tags. */
  datatype CmdSpan = CmdSpan(operationName: Bytes, dbSystem: Bytes, redisCmd: Bytes)

  /** The span `BeforeProcessPipeline` starts: its operation name and its tags. */
  datatype PipelineSpan = PipelineSpan(
    operationName: Bytes, dbSystem: Bytes, redisNumCmd: nat, redisCmds: Bytes)

  /** Longest argument rendering kept whole. */
  const LenLimit := 64
  /** Highest pipeline index still serialised. */
  const NumCmdLimit := 100
  /** Most distinct names in a pipeline span's name. */
  const NumNameLimit := 10
  /** Length of the zero-filled buffer `BeforeProcess` starts from. */
  const CmdBufferLen := 32

  const Space: byte := 32
  const Newline: byte := 10
  const Dot: byte := 46
  const Ellipsis: Bytes := [Dot, Dot, Dot]
  /** The bytes ": ". */
  const ColonSpace: Bytes := [58, 32]
  /** The bytes "redis". */
  const Redis: Bytes := [114, 101, 100, 105, 115]
  /** The bytes "pipeline ". */
  const PipelinePrefix: Bytes := [112, 105, 112, 101, 108, 105, 110, 101, 32]

  function Min(a: int, b: int): int { if a < b then a else b }

  // ---------------------------------------------------------------------
  // Specification of one command's serialisation

  /** What one argument contributes: its rendering, cut to `LenLimit` bytes
      and marked with an ellipsis when it is longer. */
  function ArgSegment(arg: Bytes): (r: Bytes)
    ensures |r| <= LenLimit + |Ellipsis| && Min(|arg|, LenLimit) <= |r|
    ensures r[..Min(|arg|, LenLimit)] == arg[..Min(|arg|, LenLimit)]
    ensures |arg| <= LenLimit ==> r == arg
    ensures |arg| > LenLimit ==> |r| == LenLimit + |Ellipsis| && r[LenLimit..] == Ellipsis
    ensures forall x :: x in r ==> x in arg || x == Dot
  {
    if |arg| > LenLimit then arg[..LenLimit] + Ellipsis else arg
  }

  /** Helper: each argument's segment, in order. */
  function Segments(args: seq<Bytes>): seq<Bytes>
  {
    seq(|args|, k requires 0 <= k < |args| => ArgSegment(args[k]))
  }

  /** What the command's error adds: nothing without one, otherwise ": "
      and then the message. */
  function ErrSuffix(err: Option<Bytes>): (r: Bytes)
    ensures err.None? <==> r == []
    ensures err.Some? ==> |r| == |ColonSpace| + |err.value| &&
                          r[..|ColonSpace|] == ColonSpace && r[|ColonSpace|..] == err.value
  {
    match err
    case None => []
    case Some(m) => ColonSpace + m
  }

  /** The serialisation of one command, independent of what precedes it:
      it begins with the first argument's segment, continues with a space
      when there is a second argument, and ends with the error suffix. */
  function CmdText(c: Cmd): (r: Bytes)
    ensures |c.args| >= 1 ==> ArgSegment(c.args[0]) <= r
    ensures |c.args| >= 2 ==> |r| > |ArgSegment(c.args[0])| && r[|ArgSegment(c.args[0])|] == Space
    ensures |r| >= |ErrSuffix(c.err)| && r[|r| - |ErrSuffix(c.err)|..] == ErrSuffix(c.err)
    ensures c.args == [] ==> r == ErrSuffix(c.err)
  {
    var j := Join(Segments(c.args), Space);
    assert (j + ErrSuffix(c.err))[|j|..] == ErrSuffix(c.err);
    j + ErrSuffix(c.err)
  }

  // ---------------------------------------------------------------------
  // appendCmd

  /** Cutting the buffer at `LenLimit` bytes past the argument's start
      leaves the earlier bytes alone and keeps exactly the argument's segment. */
  lemma TruncateStep(before: Bytes, arg: Bytes, r: Bytes)
    requires r == if |arg| > LenLimit then (before + arg)[..|before| + LenLimit] + Ellipsis
                  else before + arg
    ensures r == before + ArgSegment(arg)
  {
    if |arg| > LenLimit {
      assert (before + arg)[..|before| + LenLimit] == before + arg[..LenLimit];
    }
  }

  lemma SegmentsSnoc(args: seq<Bytes>, i: nat)
    requires i < |args|
    ensures Segments(args[..i + 1]) == Segments(args[..i]) + [ArgSegment(args[i])]
  {
    var a, b := Segments(args[..i + 1]), Segments(args[..i]) + [ArgSegment(args[i])];
    assert |a| == |b|;
    forall k | 0 <= k < |a| ensures a[k] == b[k] {
      assert args[..i + 1][k] == args[k];
    }
  }

  /** One turn of `appendCmd`'s loop: a separator unless it is the first
      argument, then the argument's segment. */
  lemma AppendArgStep(b: Bytes, args: seq<Bytes>, i: nat, done: Bytes, r: Bytes)
    requires i < |args|
    requires done == b + Join(Segments(args[..i]), Space)
    requires r == (if i > 0 then done + [Space] else done) + ArgSegment(args[i])
    ensures r == b + Join(Segments(args[..i + 1]), Space)
  {
    SegmentsSnoc(args, i);
    assert i == 0 <==> Segments(args[..i]) == [];
    JoinStep(b, Segments(args[..i]), ArgSegment(args[i]), Space, r);
  }

  /** Appends the serialisation of `cmd` to `b`: the argument renderings
      separated by single spaces, each cut at `LenLimit` bytes counted from
      its own start, then ": " and the error message if there is one. */
  method AppendCmd(b: Bytes, cmd: Cmd) returns (r: Bytes)
    ensures r == b + CmdText(cmd)
    ensures r[..|b|] == b
  {
    r := b;
    for i := 0 to |cmd.args|
      invariant r == b + Join(Segments(cmd.args[..i]), Space)
    {
      ghost var done := r;
      if i > 0 {
        r := r + [Space];
      }
      var start := |r|;
      var arg := cmd.args[i];
      ghost var before := r;
      r := r + arg;  // the package's `AppendArg`, with `arg` its rendering
      if |r| - start > LenLimit {
        r := r[..start + LenLimit] + Ellipsis;
      }
      TruncateStep(before, arg, r);
      AppendArgStep(b, cmd.args, i, done, r);
    }
    assert cmd.args[..|cmd.args|] == cmd.args;
    ghost var joined := r;
    if cmd.err.Some? {
      r := r + ColonSpace;
      r := r + cmd.err.value;
      assert r == joined + (ColonSpace + cmd.err.value);
    }
    assert r == b + (Join(Segments(cmd.args), Space) + ErrSuffix(cmd.err));
  }

  /** The error, and only it, adds the ": message" tail; a command with no
      arguments and no error serialises to nothing. */
  lemma CmdTextErrorSuffix(c: Cmd)
    ensures c.err.None? ==> CmdText(c) == Join(Segments(c.args), Space)
    ensures c.err.Some? ==>
              CmdText(c) == CmdText(c.(err := None)) + ColonSpace + c.err.value
    ensures c.args == [] && c.err.None? ==> CmdText(c) == []
  {
    if c.err.Some? {
      var j := Join(Segments(c.args), Space);
      assert CmdText(c) == j + (ColonSpace + c.err.value);
      assert (j + (ColonSpace + c.err.value))[|j|..] == ColonSpace + c.err.value;
    }
  }

  /** When no argument segment contains a space and there is no error,
      splitting the serialisation at spaces recovers exactly one segment per
      argument, in order: the separators are single spaces with none before
      the first segment or after the last. */
  lemma CmdTextSpaceSeparated(c: Cmd)
    requires |c.args| >= 1 && c.err.None?
    requires forall k :: 0 <= k < |c.args| ==> Space !in ArgSegment(c.args[k])
    ensures Split(CmdText(c), Space) == Segments(c.args)
    ensures |Split(CmdText(c), Space)| == |c.args|
    ensures forall k :: 0 <= k < |c.args| ==>
              Split(CmdText(c), Space)[k] == ArgSegment(c.args[k]) &&
              |Split(CmdText(c), Space)[k]| <= LenLimit + |Ellipsis|
  {
    var segs := Segments(c.args);
    forall k | 0 <= k < |segs|
      ensures Space !in segs[k]
    {
      assert segs[k] == ArgSegment(c.args[k]);
    }
    assert CmdText(c) == Join(segs, Space);
    SplitJoin(segs, Space);
  }

  /** Each argument adds at most `LenLimit + 3` bytes and one separator. */
  lemma CmdTextBound(c: Cmd)
    ensures |CmdText(c)| <= (LenLimit + |Ellipsis| + 1) * |c.args| + |ErrSuffix(c.err)|
  {
    JoinBound(Segments(c.args), Space, LenLimit + |Ellipsis|);
  }

  // ---------------------------------------------------------------------
  // BeforeProcess

  /** The zero-filled buffer of length `n` that Go's `make([]byte, n)` gives. */
  function Zeros(n: nat): (r: Bytes)
    ensures |r| == n && forall k :: 0 <= k < n ==> r[k] == 0
  {
    seq(n, _ => 0)
  }

  /** Starts the span of a single command. The serialisation is appended to a
      buffer of 32 zero bytes (a buffer of that length, not that capacity), so
      the `redis.cmd` tag begins with 32 zero bytes. */
  method BeforeProcess(cmd: Cmd) returns (span: CmdSpan)
    ensures span.operationName == cmd.fullName
    ensures span.dbSystem == Redis
    ensures span.redisCmd == Zeros(CmdBufferLen) + CmdText(cmd)
    ensures |span.redisCmd| >= CmdBufferLen
    ensures forall k :: 0 <= k < CmdBufferLen ==> span.redisCmd[k] == 0
  {
    var b := Zeros(CmdBufferLen);
    b := AppendCmd(b, cmd);
    span := CmdSpan(cmd.fullName, Redis, b);
  }

  // ---------------------------------------------------------------------
  // Specification of a pipeline's serialisation

  /** The commands the pipeline loop serialises: indices 0 to `NumCmdLimit`. */
  function Processed(cmds: seq<Cmd>): (r: seq<Cmd>)
    ensures |r| == Min(|cmds|, NumCmdLimit + 1) && r <= cmds
  {
    Take(cmds, NumCmdLimit + 1)
  }

  /** Helper: each command's serialisation, in order. */
  function CmdTexts(cmds: seq<Cmd>): seq<Bytes>
  {
    seq(|cmds|, k requires 0 <= k < |cmds| => CmdText(cmds[k]))
  }

  /** Helper: each command's full name, in order. */
  function Names(cmds: seq<Cmd>): seq<Bytes>
  {
    seq(|cmds|, k requires 0 <= k < |cmds| => cmds[k].fullName)
  }

  /** The `redis.cmds` tag: the processed commands' serialisations, one per
      line. It is empty for an empty pipeline, begins with the first command's
      serialisation, and a newline follows it when a second command exists. */
  function PipelineText(cmds: seq<Cmd>): (r: Bytes)
    ensures cmds == [] ==> r == []
    ensures |cmds| >= 1 ==> CmdText(cmds[0]) <= r
    ensures |cmds| >= 2 ==> |r| > |CmdText(cmds[0])| && r[|CmdText(cmds[0])|] == Newline
  {
    Join(CmdTexts(Processed(cmds)), Newline)
  }

  /** The names in the pipeline span's name: the first `NumNameLimit` distinct
      full names of the processed commands, in order of first occurrence. */
  function UniqueNames(cmds: seq<Cmd>): (r: seq<Bytes>)
    ensures Distinct(r) && |r| == Min(|Dedup(Names(Processed(cmds)))|, NumNameLimit)
    ensures r <= Dedup(Names(Processed(cmds)))
    ensures cmds == [] ==> r == []
  {
    assert cmds == [] ==> Names(Processed(cmds)) == [];
    Take(Dedup(Names(Processed(cmds))), NumNameLimit)
  }

  /** The pipeline span's name: "pipeline " and then the names, one space
      between neighbours; when no name contains a space, splitting what
      follows the prefix at spaces gives the names back. */
  function PipelineSpanName(names: seq<Bytes>): (r: Bytes)
    ensures PipelinePrefix <= r
    ensures names == [] ==> r == PipelinePrefix
    ensures names != [] && (forall k :: 0 <= k < |names| ==> Space !in names[k]) ==>
              Split(r[|PipelinePrefix|..], Space) == names
  {
    var r := PipelinePrefix + Join(names, Space);
    assert r[|PipelinePrefix|..] == Join(names, Space);
    if names != [] && (forall k :: 0 <= k < |names| ==> Space !in names[k]) then
      SplitJoin(names, Space);
      r
    else
      r
  }

  // ---------------------------------------------------------------------
  // BeforeProcessPipeline

  lemma CmdTextsSnoc(cmds: seq<Cmd>, i: nat)
    requires i < |cmds|
    ensures CmdTexts(cmds[..i + 1]) == CmdTexts(cmds[..i]) + [CmdText(cmds[i])]
  {
    var a, b := CmdTexts(cmds[..i + 1]), CmdTexts(cmds[..i]) + [CmdText(cmds[i])];
    assert |a| == |b|;
    forall k | 0 <= k < |a| ensures a[k] == b[k] {
      assert cmds[..i + 1][k] == cmds[k];
    }
  }

  lemma NamesSnoc(cmds: seq<Cmd>, i: nat)
    requires i < |cmds|
    ensures Names(cmds[..i + 1]) == Names(cmds[..i]) + [cmds[i].fullName]
  {
  }

  /** One turn of the pipeline loop's serialisation: a newline unless it is
      the first command, then the command's serialisation. */
  lemma PipelineBufferStep(cmds: seq<Cmd>, i: nat)
    requires i < |cmds|
    ensures var done := Join(CmdTexts(cmds[..i]), Newline);
            (if i > 0 then done + [Newline] else done) + CmdText(cmds[i])
            == Join(CmdTexts(cmds[..i + 1]), Newline)
  {
    CmdTextsSnoc(cmds, i);
    JoinSnoc(CmdTexts(cmds[..i]), CmdText(cmds[i]), Newline);
    assert i == 0 ==> CmdTexts(cmds[..i]) == [];
  }

  /** One step of the name collection: once `NumNameLimit` names are held
      nothing changes; before that a name not seen yet is appended. */
  lemma UniqueNamesStep(names: seq<Bytes>, name: Bytes, unq: seq<Bytes>)
    requires unq == Take(Dedup(names), NumNameLimit)
    ensures Take(Dedup(names + [name]), NumNameLimit)
            == if |unq| >= NumNameLimit || name in unq then unq else unq + [name]
  {
    DedupSnoc(names, name);
  }

  /** One turn of the pipeline loop's name collection keeps `unqNames` the
      first distinct names seen so far, and `seen` the set of them. */
  lemma NameCollectStep(cmds: seq<Cmd>, i: nat, seen: set<Bytes>, unq: seq<Bytes>)
    requires i < |cmds|
    requires unq == Take(Dedup(Names(cmds[..i])), NumNameLimit)
    requires forall x :: x in seen <==> x in unq
    ensures var name := cmds[i].fullName;
            var keep := |unq| >= NumNameLimit || name in seen;
            var unq' := if keep then unq else unq + [name];
            var seen' := if keep then seen else seen + {name};
            unq' == Take(Dedup(Names(cmds[..i + 1])), NumNameLimit) &&
            Distinct(unq') && |unq'| <= NumNameLimit &&
            (forall x :: x in seen' <==> x in unq')
  {
    UniqueNamesStep(Names(cmds[..i]), cmds[i].fullName, unq);
    NamesSnoc(cmds, i);
  }

  /** When the pipeline loop stops, with indices 0 to `NumCmdLimit` or all
      of them handled, its buffer and names are the span's tag and names. */
  lemma PipelineLoopExit(cmds: seq<Cmd>, n: nat, b: Bytes, unq: seq<Bytes>)
    requires n == Min(|cmds|, NumCmdLimit + 1)
    requires b == Join(CmdTexts(cmds[..n]), Newline)
    requires unq == Take(Dedup(Names(cmds[..n])), NumNameLimit)
    ensures b == PipelineText(cmds)
    ensures unq == UniqueNames(cmds)
    ensures PipelinePrefix + Join(unq, Space) == PipelineSpanName(UniqueNames(cmds))
  {
    assert cmds[..n] == Processed(cmds);
  }

  /** Starts the span of a pipeline: serialises the commands at indices up to
      `NumCmdLimit`, newline-separated, while collecting up to `NumNameLimit`
      distinct names; tags the span with the full command count. */
  method BeforeProcessPipeline(cmds: seq<Cmd>) returns (span: PipelineSpan)
    ensures span.redisCmds == PipelineText(cmds)
    ensures span.operationName == PipelineSpanName(UniqueNames(cmds))
    ensures span.dbSystem == Redis
    ensures span.redisNumCmd == |cmds|
    ensures cmds == [] ==> span.operationName == PipelinePrefix && span.redisCmds == []
  {
    var seen: set<Bytes> := {};
    var unqNames: seq<Bytes> := [];
    var b: Bytes := [];
    ghost var n := 0;  // commands serialised so far
    for i := 0 to |cmds|
      invariant n == i <= NumCmdLimit + 1
      invariant b == Join(CmdTexts(cmds[..i]), Newline)
      invariant unqNames == Take(Dedup(Names(cmds[..i])), NumNameLimit)
      invariant Distinct(unqNames) && |unqNames| <= NumNameLimit
      invariant forall x :: x in seen <==> x in unqNames
    {
      if i > NumCmdLimit {
        break;
      }
      if i > 0 {
        b := b + [Newline];
      }
      b := AppendCmd(b, cmds[i]);
      PipelineBufferStep(cmds, i);
      n := n + 1;

      NameCollectStep(cmds, i, seen, unqNames);
      if |unqNames| >= NumNameLimit {
        continue;
      }
      var name := cmds[i].fullName;
      if name !in seen {
        seen := seen + {name};
        unqNames := unqNames + [name];
      }
    }
    PipelineLoopExit(cmds, n, b, unqNames);
    span := PipelineSpan(PipelinePrefix + Join(unqNames, Space), Redis, |cmds|, b);
  }

  // ---------------------------------------------------------------------
  // Properties of the pipeline tags

  /** When no processed command's serialisation contains a newline, the
      `redis.cmds` tag has exactly one line per processed command, holding
      that command's serialisation. */
  lemma PipelineTextLines(cmds: seq<Cmd>)
    requires |cmds| >= 1
    requires forall k :: 0 <= k < |cmds| && k <= NumCmdLimit ==> Newline !in CmdText(cmds[k])
    ensures Split(PipelineText(cmds), Newline) == CmdTexts(Processed(cmds))
    ensures |Split(PipelineText(cmds), Newline)| == Min(|cmds|, NumCmdLimit + 1)
  {
    var texts := CmdTexts(Processed(cmds));
    forall k | 0 <= k < |texts|
      ensures Newline !in texts[k]
    {
      assert texts[k] == CmdText(cmds[k]);
    }
    SplitJoin(texts, Newline);
  }

  /** Commands after index `NumCmdLimit` change neither the `redis.cmds` tag
      nor the span name. */
  lemma PipelineIgnoresTail(cmds: seq<Cmd>, more: seq<Cmd>)
    requires |cmds| > NumCmdLimit
    ensures PipelineText(cmds + more) == PipelineText(cmds)
    ensures UniqueNames(cmds + more) == UniqueNames(cmds)
  {
    assert Processed(cmds + more) == Processed(cmds);
  }

  /** Commands added at the end of a pipeline never reorder or remove the
      names already collected; they can only add names after them. */
  lemma UniqueNamesGrow(cmds: seq<Cmd>, more: seq<Cmd>)
    ensures UniqueNames(cmds) <= UniqueNames(cmds + more)
  {
    var p, q := Processed(cmds), Processed(cmds + more);
    assert p <= q;
    var rest := q[|p|..];
    assert q == p + rest;
    assert Names(q) == Names(p) + Names(rest);
    DedupExtends(Names(p), Names(rest));
  }

  /** The span's names are full names of processed commands, in order of
      first occurrence; as long as fewer than `NumNameLimit` are held, every
      processed command's name is among them. */
  lemma UniqueNamesProperties(cmds: seq<Cmd>)
    ensures forall x :: x in UniqueNames(cmds) ==> x in Names(Processed(cmds))
    ensures |UniqueNames(cmds)| < NumNameLimit ==>
              forall k :: 0 <= k < |Processed(cmds)| ==> cmds[k].fullName in UniqueNames(cmds)
    ensures forall i, j :: 0 <= i < j < |UniqueNames(cmds)| ==>
              FirstIndex(Names(Processed(cmds)), UniqueNames(cmds)[i])
              < FirstIndex(Names(Processed(cmds)), UniqueNames(cmds)[j])
  {
    var names := Names(Processed(cmds));
    var d := Dedup(names);
    var u := UniqueNames(cmds);
    assert u <= d;
    forall i, j | 0 <= i < j < |u| ensures u[i] != u[j] {
      assert u[i] == d[i] && u[j] == d[j];
    }
    if |u| < NumNameLimit {
      assert u == d;
      forall k | 0 <= k < |Processed(cmds)| ensures cmds[k].fullName in u {
        assert names[k] == cmds[k].fullName;
      }
    }
    DedupFirstSeenOrder(names);
    forall i, j | 0 <= i < j < |u|
      ensures FirstIndex(names, u[i]) < FirstIndex(names, u[j])
    {
      assert u[i] == d[i] && u[j] == d[j];
    }
  }

  // ---------------------------------------------------------------------
  // Worked examples

  /** Three arguments short enough to be kept whole, and no error: the
      arguments with a space between neighbours. */
  lemma ExampleThreeArgs(name: Bytes, x: Bytes, y: Bytes, z: Bytes)
    requires |x| <= LenLimit && |y| <= LenLimit && |z| <= LenLimit
    ensures CmdText(Cmd(name, [x, y, z], None)) == x + [Space] + (y + [Space] + z)
  {
    var args := [x, y, z];
    assert Segments(args) == args;
    assert args[1..] == [y, z] && [y, z][1..] == [z];
    assert Join([y, z], Space) == y + [Space] + z;
  }

  /** The bytes of the literal `SET key value`, piece by piece. */
  lemma ExampleSetBytes()
    ensures Str("SET") + [Space] + (Str("key") + [Space] + Str("value")) == Str("SET key value")
  {
    assert Str("SET") == [83, 69, 84] && Str("key") == [107, 101, 121];
    assert Str("value") == [118, 97, 108, 117, 101];
    assert Str("SET key value") == [83, 69, 84, 32, 107, 101, 121, 32, 118, 97, 108, 117, 101];
  }

  /** The arguments `SET`, `key`, `value` with no error serialise to `SET key value`. */
  lemma ExampleSet()
    ensures CmdText(Cmd(Str("SET"), [Str("SET"), Str("key"), Str("value")], None))
            == Str("SET key value")
  {
    var x, y, z := Str("SET"), Str("key"), Str("value");
    ExampleThreeArgs(x, x, y, z);
    ExampleSetBytes();
  }

  function ExampleGets(): seq<Cmd>
  {
    [Cmd(Str("GET"), [Str("GET"), Str("a")], None),
     Cmd(Str("GET"), [Str("GET"), Str("b")], None)]
  }

  /** Two commands of one name: the name is collected once. */
  lemma ExampleUniqueNames()
    ensures UniqueNames(ExampleGets()) == [Str("GET")]
  {
    var cmds, g := ExampleGets(), Str("GET");
    assert Names(Processed(cmds)) == [g] + [g];
    DedupSnoc([], g);
    assert [] + [g] == [g];
    DedupSnoc([g], g);
  }

  /** Two commands of one name: the span carries that name once. */
  lemma ExamplePipelineName()
    ensures PipelineSpanName(UniqueNames(ExampleGets())) == Str("pipeline GET")
  {
    ExampleUniqueNames();
    assert PipelinePrefix + Str("GET") == Str("pipeline GET");
  }

  /** `GET key` with no error serialises to `GET key`. */
  lemma ExampleGet(key: Bytes)
    requires |key| <= LenLimit
    ensures CmdText(Cmd(Str("GET"), [Str("GET"), key], None)) == Str("GET") + [Space] + key
  {
    assert Segments([Str("GET"), key]) == [Str("GET"), key];
  }

  /** The bytes of the literal `GET a\nGET b`, line by line. */
  lemma ExampleLines()
    ensures Str("GET") + [Space] + Str("a") + [Newline] + (Str("GET") + [Space] + Str("b"))
            == Str("GET a\nGET b")
  {
    assert Str("GET") == [71, 69, 84] && Str("a") == [97] && Str("b") == [98];
    assert Str("GET a\nGET b") == [71, 69, 84, 32, 97, 10, 71, 69, 84, 32, 98];
  }

  /** Two commands: one line each in the `redis.cmds` tag. */
  lemma ExamplePipelineText()
    ensures PipelineText(ExampleGets()) == Str("GET a\nGET b")
  {
    var cmds, g := ExampleGets(), Str("GET");
    var ta, tb := g + [Space] + Str("a"), g + [Space] + Str("b");
    ExampleGet(Str("a"));
    ExampleGet(Str("b"));
    assert Processed(cmds) == cmds;
    assert CmdTexts(cmds) == [ta, tb];
    assert [ta, tb][1..] == [tb];
    assert PipelineText(cmds) == ta + [Newline] + tb;
    ExampleLines();
  }
}
