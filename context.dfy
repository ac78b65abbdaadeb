/**
 * A log record's context and the way the card style splits it: entries whose
 * value is an exception go to the exception list, every other entry becomes
 * one fact. `Facts` and `Exceptions` are the specification of the loop in
 * `getMessage`; they are defined on the last entry so that they grow the way
 * the loop's arrays do.
 */
module Context {
  import opened TeamsMessage

  /** What the handler reads from a caught `\Exception`. */
  datatype ExceptionInfo = ExceptionInfo(message: string, trace: string, code: int, file: string, line: int)

  /**
   * A context value, classified once: a scalar, an array or object (carried
   * as the text `json_encode` gives for it), or an exception.
   */
  datatype Value = Scalar(atom: Atom) | Composite(json: string) | Exc(ex: ExceptionInfo)

  /** The context array, in insertion order. */
  type Entries = seq<(string, Value)>

  /** PHP array keys are unique. */
  predicate DistinctKeys(ctx: Entries) {
    forall i, j :: 0 <= i < j < |ctx| ==> ctx[i].0 != ctx[j].0
  }

  /**
   * The fact value of a non-exception entry: a scalar as it is, an array or
   * object as its JSON text fenced by backticks, from which the JSON can be
   * read back.
   */
  function FactValue(v: Value): (a: Atom)
    requires !v.Exc?
    ensures v.Scalar? ==> a == v.atom
    ensures v.Composite? ==> a.Str? && |a.s| == |v.json| + 2
    ensures v.Composite? ==> a.s[0] == '`' && a.s[|a.s| - 1] == '`' && a.s[1..|a.s| - 1] == v.json
  {
    match v
    case Scalar(atom) => atom
    case Composite(json) => Str("`" + json + "`")
  }

  /** The facts taken from the context, in order. */
  function Facts(ctx: Entries): seq<Fact>
  {
    if ctx == [] then []
    else
      var (key, value) := ctx[|ctx| - 1];
      Facts(ctx[..|ctx| - 1]) + (if value.Exc? then [] else [Fact(key, FactValue(value))])
  }

  /** The exception entries of the context, in order. */
  function Exceptions(ctx: Entries): seq<(string, ExceptionInfo)>
  {
    if ctx == [] then []
    else
      var (key, value) := ctx[|ctx| - 1];
      Exceptions(ctx[..|ctx| - 1]) + (if value.Exc? then [(key, value.ex)] else [])
  }

  /** Number of entries whose value is not an exception. */
  function PlainCount(ctx: Entries): nat
  {
    if ctx == [] then 0
    else PlainCount(ctx[..|ctx| - 1]) + (if ctx[|ctx| - 1].1.Exc? then 0 else 1)
  }

  /** Number of entries whose value is an exception. */
  function ExceptionCount(ctx: Entries): nat
  {
    if ctx == [] then 0
    else ExceptionCount(ctx[..|ctx| - 1]) + (if ctx[|ctx| - 1].1.Exc? then 1 else 0)
  }

  /** Every entry is counted on exactly one side. */
  lemma {:induction false} PartitionCounts(ctx: Entries)
    ensures PlainCount(ctx) + ExceptionCount(ctx) == |ctx|
  {
    if ctx != [] {
      PartitionCounts(ctx[..|ctx| - 1]);
    }
  }

  /** One fact per non-exception entry, one exception per exception entry. */
  lemma {:induction false} PartitionLengths(ctx: Entries)
    ensures |Facts(ctx)| == PlainCount(ctx)
    ensures |Exceptions(ctx)| == ExceptionCount(ctx)
  {
    if ctx != [] {
      PartitionLengths(ctx[..|ctx| - 1]);
    }
  }

  /** Counting over a prefix one entry longer. */
  lemma PrefixStep(ctx: Entries, i: nat)
    requires i < |ctx|
    ensures PlainCount(ctx[..i + 1]) == PlainCount(ctx[..i]) + (if ctx[i].1.Exc? then 0 else 1)
    ensures ExceptionCount(ctx[..i + 1]) == ExceptionCount(ctx[..i]) + (if ctx[i].1.Exc? then 1 else 0)
    ensures Facts(ctx[..i + 1]) == Facts(ctx[..i]) + (if ctx[i].1.Exc? then [] else [Fact(ctx[i].0, FactValue(ctx[i].1))])
    ensures Exceptions(ctx[..i + 1]) == Exceptions(ctx[..i]) + (if ctx[i].1.Exc? then [(ctx[i].0, ctx[i].1.ex)] else [])
  {
    assert ctx[..i + 1][..i] == ctx[..i];
  }

  /**
   * The non-exception entry at position i is the fact at position
   * PlainCount(ctx[..i]): its key is the fact's name and its value is
   * rendered by FactValue.
   */
  lemma {:induction false} FactAt(ctx: Entries, i: nat)
    requires i < |ctx| && !ctx[i].1.Exc?
    ensures PlainCount(ctx[..i]) < |Facts(ctx)|
    ensures Facts(ctx)[PlainCount(ctx[..i])] == Fact(ctx[i].0, FactValue(ctx[i].1))
  {
    var init := ctx[..|ctx| - 1];
    PartitionLengths(init);
    if i == |ctx| - 1 {
    } else {
      FactAt(init, i);
      assert init[..i] == ctx[..i];
    }
  }

  /**
   * The exception entry at position i is the exception at position
   * ExceptionCount(ctx[..i]), with its key.
   */
  lemma {:induction false} ExceptionAt(ctx: Entries, i: nat)
    requires i < |ctx| && ctx[i].1.Exc?
    ensures ExceptionCount(ctx[..i]) < |Exceptions(ctx)|
    ensures Exceptions(ctx)[ExceptionCount(ctx[..i])] == (ctx[i].0, ctx[i].1.ex)
  {
    var init := ctx[..|ctx| - 1];
    PartitionLengths(init);
    if i == |ctx| - 1 {
    } else {
      ExceptionAt(init, i);
      assert init[..i] == ctx[..i];
    }
  }

  /** Every fact comes from a non-exception entry, placed as FactAt says. */
  lemma {:induction false} FactOrigin(ctx: Entries, j: nat) returns (i: nat)
    requires j < |Facts(ctx)|
    ensures i < |ctx| && !ctx[i].1.Exc? && PlainCount(ctx[..i]) == j
    ensures Facts(ctx)[j] == Fact(ctx[i].0, FactValue(ctx[i].1))
  {
    var init := ctx[..|ctx| - 1];
    PartitionLengths(init);
    if j < |Facts(init)| {
      i := FactOrigin(init, j);
      assert init[..i] == ctx[..i];
    } else {
      i := |ctx| - 1;
    }
  }

  /** Every exception comes from an exception entry, placed as ExceptionAt says. */
  lemma {:induction false} ExceptionOrigin(ctx: Entries, j: nat) returns (i: nat)
    requires j < |Exceptions(ctx)|
    ensures i < |ctx| && ctx[i].1.Exc? && ExceptionCount(ctx[..i]) == j
    ensures Exceptions(ctx)[j] == (ctx[i].0, ctx[i].1.ex)
  {
    var init := ctx[..|ctx| - 1];
    PartitionLengths(init);
    if j < |Exceptions(init)| {
      i := ExceptionOrigin(init, j);
      assert init[..i] == ctx[..i];
    } else {
      i := |ctx| - 1;
    }
  }

  /** Counting over a longer prefix never gives less. */
  lemma {:induction false} CountsMonotone(ctx: Entries, i: nat, k: nat)
    requires i <= k <= |ctx|
    ensures PlainCount(ctx[..i]) <= PlainCount(ctx[..k])
    ensures ExceptionCount(ctx[..i]) <= ExceptionCount(ctx[..k])
  {
    if i < k {
      CountsMonotone(ctx, i, k - 1);
      PrefixStep(ctx, k - 1);
    }
  }

  /** Facts keep the context's order: an earlier entry's fact comes first. */
  lemma FactsKeepOrder(ctx: Entries, i: nat, k: nat)
    requires i < k < |ctx| && !ctx[i].1.Exc? && !ctx[k].1.Exc?
    ensures PlainCount(ctx[..i]) < PlainCount(ctx[..k]) < |Facts(ctx)|
  {
    PrefixStep(ctx, i);
    CountsMonotone(ctx, i + 1, k);
    FactAt(ctx, k);
  }

  /** Exceptions keep the context's order: an earlier entry's exception comes first. */
  lemma ExceptionsKeepOrder(ctx: Entries, i: nat, k: nat)
    requires i < k < |ctx| && ctx[i].1.Exc? && ctx[k].1.Exc?
    ensures ExceptionCount(ctx[..i]) < ExceptionCount(ctx[..k]) < |Exceptions(ctx)|
  {
    PrefixStep(ctx, i);
    CountsMonotone(ctx, i + 1, k);
    ExceptionAt(ctx, k);
  }

  /**
   * With unique keys, the key of entry i names exactly one fact when the
   * value is not an exception (the one FactAt places) and none when it is.
   */
  lemma FactNamedBy(ctx: Entries, i: nat, j: nat)
    requires DistinctKeys(ctx) && i < |ctx| && j < |Facts(ctx)|
    requires Facts(ctx)[j].name == ctx[i].0
    ensures !ctx[i].1.Exc? && j == PlainCount(ctx[..i])
  {
    var i' := FactOrigin(ctx, j);
    assert i' == i;
  }

  /** With unique keys, no exception entry's key names a fact. */
  lemma ExceptionNotAFact(ctx: Entries, i: nat)
    requires DistinctKeys(ctx) && i < |ctx| && ctx[i].1.Exc?
    ensures forall j :: 0 <= j < |Facts(ctx)| ==> Facts(ctx)[j].name != ctx[i].0
  {
    forall j | 0 <= j < |Facts(ctx)| && Facts(ctx)[j].name == ctx[i].0
      ensures false
    {
      FactNamedBy(ctx, i, j);
    }
  }
}
