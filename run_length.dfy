/**
 Run-length view of a CIGAR byte string.

 A CIGAR as produced by the aligner is one byte per edit operation
 (`M`, `X`, `I`, `D`). Its run-length view is the list of maximal runs of
 equal bytes, in order; `Expand` turns that list back into the byte string.
 */
module RunLength {

  /** A Rust `u8`. */
  type Byte = b: int | 0 <= b < 256

  /** `count` consecutive copies of the operation byte `op`. */
  datatype Run = Run(count: nat, op: Byte)

  /** `n` copies of `b`. */
  function Repeat(n: nat, b: Byte): seq<Byte>
  {
    seq(n, _ => b)
  }

  /** The byte string a list of runs stands for. */
  function Expand(rs: seq<Run>): seq<Byte>
  {
    if rs == [] then [] else Repeat(rs[0].count, rs[0].op) + Expand(rs[1..])
  }

  /** Sum of the counts of a list of runs. */
  function TotalCount(rs: seq<Run>): nat
  {
    if rs == [] then 0 else rs[0].count + TotalCount(rs[1..])
  }

  /** The operation bytes that occur in a list of runs. */
  function Ops(rs: seq<Run>): set<Byte>
  {
    set r | r in rs :: r.op
  }

  /**
   A list of runs is canonical when no run is empty and no two neighbours
   carry the same operation, i.e. every run is maximal.
   */
  ghost predicate Canonical(rs: seq<Run>)
  {
    && (forall k :: 0 <= k < |rs| ==> rs[k].count >= 1)
    && (forall j, k :: 0 <= j < k < |rs| && k == j + 1 ==> rs[j].op != rs[k].op)
  }

  /** Length of the maximal leading block of bytes equal to `s[0]`. */
  function LeadLength(s: seq<Byte>): (k: nat)
    requires s != []
    ensures 1 <= k <= |s|
  {
    if |s| == 1 || s[1] != s[0] then 1 else 1 + LeadLength(s[1..])
  }

  /** The leading block is made of copies of `s[0]` and is followed by a different byte, if any. */
  lemma {:induction false} LeadLengthBlock(s: seq<Byte>)
    requires s != []
    ensures forall j :: 0 <= j < LeadLength(s) ==> s[j] == s[0]
    ensures LeadLength(s) == |s| || s[LeadLength(s)] != s[0]
  {
    if |s| > 1 && s[1] == s[0] {
      LeadLengthBlock(s[1..]);
      assert forall j :: 1 <= j < LeadLength(s) ==> s[j] == s[1..][j - 1];
    }
  }

  /** The maximal runs of `s`, in order. */
  function Runs(s: seq<Byte>): seq<Run>
    decreases |s|
  {
    if s == [] then []
    else
      var k := LeadLength(s);
      [Run(k, s[0])] + Runs(s[k..])
  }

  /**
   The run view is canonical: every run is non-empty and maximal. It is empty
   only for the empty input, and its first run carries the first byte.
   */
  lemma {:induction false} RunsCanonical(s: seq<Byte>)
    ensures Canonical(Runs(s))
    ensures s == [] <==> Runs(s) == []
    ensures s != [] ==> Runs(s)[0].op == s[0]
    decreases |s|
  {
    if s != [] {
      var k := LeadLength(s);
      var tail := Runs(s[k..]);
      RunsCanonical(s[k..]);
      LeadLengthBlock(s);
      var rs := [Run(k, s[0])] + tail;
      assert Runs(s) == rs;
      forall j, i | 0 <= j < i < |rs| && i == j + 1
        ensures rs[j].op != rs[i].op
      {
        if j == 0 {
          assert rs[i] == tail[0];
        } else {
          assert rs[j] == tail[j - 1] && rs[i] == tail[i - 1];
        }
      }
    }
  }

  /** The leading block length is determined by its two defining facts. */
  lemma LeadLengthUnique(s: seq<Byte>, k: nat)
    requires 1 <= k <= |s|
    requires forall j :: 0 <= j < k ==> s[j] == s[0]
    requires k == |s| || s[k] != s[0]
    ensures LeadLength(s) == k
  {
    LeadLengthBlock(s);
  }

  /** Expanding concatenated run lists concatenates their expansions. */
  lemma {:induction false} ExpandAppend(a: seq<Run>, b: seq<Run>)
    ensures Expand(a + b) == Expand(a) + Expand(b)
  {
    if a == [] {
      assert a + b == b;
    } else {
      assert (a + b)[1..] == a[1..] + b;
      ExpandAppend(a[1..], b);
    }
  }

  /** The expansion is as long as the counts add up to. */
  lemma {:induction false} ExpandLength(rs: seq<Run>)
    ensures |Expand(rs)| == TotalCount(rs)
  {
    if rs != [] {
      ExpandLength(rs[1..]);
    }
  }

  /** Round trip: expanding the runs of `s` gives back `s`. */
  lemma {:induction false} ExpandRuns(s: seq<Byte>)
    ensures Expand(Runs(s)) == s
    decreases |s|
  {
    if s != [] {
      var k := LeadLength(s);
      var tail := Runs(s[k..]);
      ExpandRuns(s[k..]);
      calc {
        Expand(Runs(s));
        Expand([Run(k, s[0])] + tail);
        { ExpandAppend([Run(k, s[0])], tail); }
        Expand([Run(k, s[0])]) + Expand(tail);
        { ExpandSingle(Run(k, s[0])); LeadBlock(s); }
        s[..k] + s[k..];
        s;
      }
    }
  }

  /** A single run expands to its copies. */
  lemma ExpandSingle(r: Run)
    ensures Expand([r]) == Repeat(r.count, r.op)
  {
    assert [r][1..] == [];
  }

  /** The leading block of `s` is `LeadLength(s)` copies of `s[0]`. */
  lemma LeadBlock(s: seq<Byte>)
    requires s != []
    ensures Repeat(LeadLength(s), s[0]) == s[..LeadLength(s)]
  {
    LeadLengthBlock(s);
  }

  /**
   Round trip the other way, and uniqueness of the run view: a canonical
   list of runs is exactly the run view of its own expansion.
   */
  lemma {:induction false} RunsExpand(rs: seq<Run>)
    requires Canonical(rs)
    ensures Runs(Expand(rs)) == rs
  {
    if rs != [] {
      var s := Expand(rs);
      var k := rs[0].count;
      var tail := Expand(rs[1..]);
      assert s == Repeat(k, rs[0].op) + tail;
      if rs[1..] != [] {
        assert rs[1..][0] == rs[1];
        assert tail == Repeat(rs[1].count, rs[1].op) + Expand(rs[2..]);
        assert s[k] == tail[0] == rs[1].op;
      }
      LeadLengthUnique(s, k);
      assert s[k..] == tail;
      RunsExpand(rs[1..]);
    }
  }

  /** The emitted counts add up to the length of the input. */
  lemma {:induction false} CountsSumToLength(s: seq<Byte>)
    ensures TotalCount(Runs(s)) == |s|
  {
    ExpandRuns(s);
    ExpandLength(Runs(s));
  }

  /** With no empty run, a byte occurs in the expansion iff it is the operation of some run. */
  lemma {:induction false} ExpandMembers(rs: seq<Run>)
    requires forall k :: 0 <= k < |rs| ==> rs[k].count >= 1
    ensures forall b :: b in Expand(rs) <==> b in Ops(rs)
  {
    if rs != [] {
      ExpandMembers(rs[1..]);
      assert rs == [rs[0]] + rs[1..];
      assert Ops(rs) == {rs[0].op} + Ops(rs[1..]);
      assert Repeat(rs[0].count, rs[0].op)[0] == rs[0].op;
    }
  }

  /** The operations of the run view are exactly the bytes of the input. */
  lemma RunsOps(s: seq<Byte>)
    ensures forall b :: b in s <==> b in Ops(Runs(s))
  {
    ExpandRuns(s);
    RunsCanonical(s);
    ExpandMembers(Runs(s));
  }
}
