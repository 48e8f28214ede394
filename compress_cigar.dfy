/**
 `compress_cigar`: run-length compression of a CIGAR byte string into its
 readable form `<count><op>...`, e.g. `9I13M10I`.

 `Compress` is the specification (render the maximal runs of the input);
 `CompressCigar` is the loop itself, with its sentinel start state, proved to
 compute `Compress`. `ParseCigar` and `Decompress` read the compressed form
 back and close the round trip.
 */
module CompressCigar {
  import opened RunLength
  import opened Decimal
  import Utf8

  datatype Option<T> = None | Some(value: T)

  /**
   What the compressor yields: the compressed text, or the panic raised when
   the UTF-8 conversion of an operation byte fails and is unwrapped.
   */
  datatype Outcome = Compressed(text: string) | Utf8Panic

  predicate IsAscii(b: Byte)
  {
    b < 128
  }

  /**
   `std::str::from_utf8` on the one-byte slice `[b]`: it yields a character
   exactly when `[b]` is well-formed UTF-8, and that character is the one-byte
   form `UTF8-1`, whose code point is `b` itself.
   */
  function FromUtf8Byte(b: Byte): (c: Option<char>)
    ensures c.Some? <==> Utf8.WellFormed([b])
    ensures c.Some? ==> c.value as int == b
  {
    if IsAscii(b) then Some(b as char) else None
  }

  /** `format!("{}{}", count, op)` for one run with an ASCII operation. */
  function Field(r: Run): string
  {
    Digits(r.count) + [r.op as char]
  }

  /** The fields of a list of runs, in order. */
  function Text(rs: seq<Run>): string
  {
    if rs == [] then [] else Field(rs[0]) + Text(rs[1..])
  }

  /**
   The result the compressor promises: the fields of the maximal runs of the
   input, or a panic when some run's operation is not ASCII.
   */
  function Compress(cigar: seq<Byte>): Outcome
  {
    var rs := Runs(cigar);
    if forall r | r in rs :: IsAscii(r.op) then Compressed(Text(rs)) else Utf8Panic
  }

  /** Reads a compressed CIGAR back into its runs: digits, then one operation character, repeated. */
  function ParseCigar(t: string): Option<seq<Run>>
    decreases |t|
  {
    if t == [] then Some([])
    else
      var k := DigitSpan(t);
      if k == 0 || k == |t| || t[k] as int >= 256 then None
      else
        match ParseCigar(t[k + 1..])
        case None => None
        case Some(rest) => Some([Run(Value(t[..k]), t[k] as int)] + rest)
  }

  /** Reads a compressed CIGAR back into the byte string it stands for. */
  function Decompress(t: string): Option<seq<Byte>>
  {
    match ParseCigar(t)
    case None => None
    case Some(rs) => Some(Expand(rs))
  }

  /** Rendering concatenated run lists concatenates their texts. */
  lemma {:induction false} TextAppend(a: seq<Run>, b: seq<Run>)
    ensures Text(a + b) == Text(a) + Text(b)
  {
    if a == [] {
      assert a + b == b;
    } else {
      assert (a + b)[1..] == a[1..] + b;
      TextAppend(a[1..], b);
    }
  }

  /** The compressor panics exactly when the input holds a non-ASCII byte. */
  lemma PanicIffNonAscii(cigar: seq<Byte>)
    ensures Compress(cigar) == Utf8Panic <==> exists i :: 0 <= i < |cigar| && !IsAscii(cigar[i])
  {
    var rs := Runs(cigar);
    RunsOps(cigar);
    if exists i :: 0 <= i < |cigar| && !IsAscii(cigar[i]) {
      var i :| 0 <= i < |cigar| && !IsAscii(cigar[i]);
      assert cigar[i] in Ops(rs);
    } else {
      forall r | r in rs
        ensures IsAscii(r.op)
      {
        assert r.op in Ops(rs);
      }
    }
  }

  /** A byte whose one-byte conversion fails makes the whole compression panic. */
  lemma PanicAt(cigar: seq<Byte>, i: nat)
    requires i < |cigar|
    requires FromUtf8Byte(cigar[i]).None?
    ensures Compress(cigar) == Utf8Panic
  {
    PanicIffNonAscii(cigar);
  }

  /** An empty input, and only an empty input, compresses to the empty string. */
  lemma CompressEmpty(cigar: seq<Byte>)
    ensures Compress([]) == Compressed([])
    ensures Compress(cigar).Compressed? ==> (Compress(cigar).text == [] <==> cigar == [])
  {
    var rs := Runs(cigar);
    if rs != [] {
      assert |Field(rs[0])| >= 1;
    }
  }

  /** On a canonical list of ASCII runs, the compressor outputs exactly their fields. */
  lemma CompressOfRuns(rs: seq<Run>)
    requires Canonical(rs)
    requires forall r | r in rs :: IsAscii(r.op)
    ensures Compress(Expand(rs)) == Compressed(Text(rs))
  {
    RunsExpand(rs);
  }

  /** Reading back one field in front of more text yields its run in front of what the rest reads as. */
  lemma ParseField(n: nat, c: char, rest: string)
    requires !IsDigit(c) && c as int < 256
    ensures ParseCigar(Digits(n) + [c] + rest)
            == match ParseCigar(rest)
               case None => None
               case Some(rs) => Some([Run(n, c as int)] + rs)
  {
    var t := Digits(n) + [c] + rest;
    var k := |Digits(n)|;
    DigitSpanOfNumber(n, c, rest);
    assert t[..k] == Digits(n);
    assert t[k] == c;
    assert t[k + 1..] == rest;
  }

  /** Reading back the text of runs whose operations are not digits recovers the runs. */
  lemma {:induction false} ParseText(rs: seq<Run>)
    requires forall r | r in rs :: !IsDigit(r.op as char)
    ensures ParseCigar(Text(rs)) == Some(rs)
  {
    if rs != [] {
      assert rs[0] in rs;
      assert forall r | r in rs[1..] :: r in rs;
      ParseField(rs[0].count, rs[0].op as char, Text(rs[1..]));
      ParseText(rs[1..]);
      assert rs == [Run(rs[0].count, rs[0].op)] + rs[1..];
    }
  }

  /**
   Round trip: when every byte is ASCII and no byte is a digit (true of the
   CIGAR operations `M`, `X`, `I`, `D`), the compressed text reads back as
   the original byte string.
   */
  lemma DecompressCompress(cigar: seq<Byte>)
    requires forall i :: 0 <= i < |cigar| ==> IsAscii(cigar[i]) && !IsDigit(cigar[i] as char)
    ensures Compress(cigar).Compressed?
    ensures Decompress(Compress(cigar).text) == Some(cigar)
  {
    var rs := Runs(cigar);
    RunsOps(cigar);
    forall r | r in rs
      ensures IsAscii(r.op) && !IsDigit(r.op as char)
    {
      assert r.op in Ops(rs);
    }
    ParseText(rs);
    ExpandRuns(cigar);
  }

  /**
   The compressor loop. `current_type` starts at the sentinel byte 0 with
   `runlen` 0, so a first input byte 0 takes the "same type" branch; the
   invariant `runlen == 0 <==> i == 0` is what makes that harmless.
   */
  method CompressCigar(cigar: seq<Byte>) returns (result: Outcome)
    ensures result == Compress(cigar)
  {
    var out: string := [];
    var runlen: nat := 0;
    var currentType: Byte := 0;
    ghost var emitted: seq<Run> := [];
    for i := 0 to |cigar|
      invariant runlen <= i
      invariant runlen == 0 <==> i == 0
      invariant i > 0 ==> currentType == cigar[i - 1]
      invariant forall j :: i - runlen <= j < i ==> cigar[j] == currentType
      invariant Written(cigar, i - runlen, emitted, out)
      invariant emitted != [] ==> emitted[|emitted| - 1].op != currentType
    {
      var c := cigar[i];
      if currentType == c {
        runlen := runlen + 1;
      } else {
        if runlen > 0 {
          var op := FromUtf8Byte(currentType);
          if op.None? {
            PanicAt(cigar, i - 1);
            return Utf8Panic;
          }
          EmitRun(cigar, i, emitted, out, Run(runlen, currentType));
          out := out + (Digits(runlen) + [op.value]);
          emitted := emitted + [Run(runlen, currentType)];
        }
        runlen := 1;
        currentType := c;
      }
    }
    if runlen > 0 {
      var op := FromUtf8Byte(currentType);
      if op.None? {
        PanicAt(cigar, |cigar| - 1);
        return Utf8Panic;
      }
      EmitRun(cigar, |cigar|, emitted, out, Run(runlen, currentType));
      out := out + (Digits(runlen) + [op.value]);
      emitted := emitted + [Run(runlen, currentType)];
    }
    WrittenAll(cigar, emitted, out);
    result := Compressed(out);
  }

  /**
   The state of the compressor once the first `done` input bytes are closed
   runs: `emitted` are their runs, canonical and ASCII, and `out` is their text.
   */
  ghost predicate Written(cigar: seq<Byte>, done: nat, emitted: seq<Run>, out: string)
  {
    && done <= |cigar|
    && Canonical(emitted)
    && Expand(emitted) == cigar[..done]
    && (forall x | x in emitted :: IsAscii(x.op))
    && out == Text(emitted)
  }

  /** Once every input byte is in a closed run, the text written is the compressed input. */
  lemma WrittenAll(cigar: seq<Byte>, emitted: seq<Run>, out: string)
    requires Written(cigar, |cigar|, emitted, out)
    ensures Compress(cigar) == Compressed(out)
  {
    assert cigar[..|cigar|] == cigar;
    RunsExpand(emitted);
  }

  /**
   Emitting the run `r` that ends at `cigar[end - 1]` and differs from the
   last emitted run keeps the emitted runs canonical, ASCII, and in step with
   the input consumed so far and with the text written so far.
   */
  lemma EmitRun(cigar: seq<Byte>, end: nat, emitted: seq<Run>, out: string, r: Run)
    requires 1 <= r.count <= end <= |cigar|
    requires forall j :: end - r.count <= j < end ==> cigar[j] == r.op
    requires Written(cigar, end - r.count, emitted, out)
    requires emitted != [] ==> emitted[|emitted| - 1].op != r.op
    requires IsAscii(r.op)
    ensures Written(cigar, end, emitted + [r], out + Field(r))
  {
    AppendCanonical(emitted, r);
    ExpandAppend(emitted, [r]);
    ExpandSingle(r);
    SingleRun(r);
    TextAppend(emitted, [r]);
    TrailingBlock(cigar, end, r);
  }

  /** The input up to `end` is the part before the run `r` followed by `r` itself. */
  lemma TrailingBlock(cigar: seq<Byte>, end: nat, r: Run)
    requires r.count <= end <= |cigar|
    requires forall j :: end - r.count <= j < end ==> cigar[j] == r.op
    ensures cigar[..end - r.count] + Repeat(r.count, r.op) == cigar[..end]
  {
  }

  lemma AppendCanonical(emitted: seq<Run>, r: Run)
    requires Canonical(emitted)
    requires r.count >= 1
    requires emitted != [] ==> emitted[|emitted| - 1].op != r.op
    ensures Canonical(emitted + [r])
  {
    var e := emitted + [r];
    forall k | 0 < k < |e|
      ensures e[k - 1].op != e[k].op
    {
      if k < |emitted| {
        assert e[k - 1] == emitted[k - 1] && e[k] == emitted[k];
      }
    }
  }

  lemma SingleRun(r: Run)
    ensures Text([r]) == Field(r)
  {
    assert [r][1..] == [];
  }

  /** `9I13M10I`, the ends-free alignment of a short pattern inside a longer text. */
  lemma EndsFreeInsertionVector()
    ensures Compress(Repeat(9, 'I' as int) + Repeat(13, 'M' as int) + Repeat(10, 'I' as int))
            == Compressed("9I13M10I")
  {
    ThreeRuns(9, 'I' as int, 13, 'M' as int, 10, 'I' as int);
    TwoDigitCounts();
  }

  /** `9D13M10D`, the same alignment with pattern and text swapped. */
  lemma EndsFreeDeletionVector()
    ensures Compress(Repeat(9, 'D' as int) + Repeat(13, 'M' as int) + Repeat(10, 'D' as int))
            == Compressed("9D13M10D")
  {
    ThreeRuns(9, 'D' as int, 13, 'M' as int, 10, 'D' as int);
    TwoDigitCounts();
  }

  /** The two-digit counts that occur in the vectors. */
  lemma TwoDigitCounts()
    ensures Digits(10) == "10" && Digits(13) == "13" && Digits(21) == "21"
  {
    assert Digits(1) == "1" && Digits(2) == "2";
  }

  /** `6M21I5M`, the end-to-end alignment with a long insertion. */
  lemma LongInsertionVector()
    ensures Compress(Repeat(6, 'M' as int) + Repeat(21, 'I' as int) + Repeat(5, 'M' as int))
            == Compressed("6M21I5M")
  {
    ThreeRuns(6, 'M' as int, 21, 'I' as int, 5, 'M' as int);
    TwoDigitCounts();
  }

  /** A leading run of zero bytes, the value of the sentinel, is counted in full. */
  lemma LeadingZeroBytes()
    ensures Compress([0, 0, 'M' as int]) == Compressed(['2', 0 as char, '1', 'M'])
  {
    var r1, r2 := Run(2, 0), Run(1, 'M' as int);
    var rs := [r1] + [r2];
    ExpandSingle(r1);
    SingleRun(r1);
    ExpandSingle(r2);
    SingleRun(r2);
    ExpandAppend([r1], [r2]);
    TextAppend([r1], [r2]);
    assert Expand(rs) == [0, 0, 'M' as int];
    CompressOfRuns(rs);
  }

  /** Compression of three runs with distinct neighbouring ASCII operations. */
  lemma ThreeRuns(n1: nat, a: Byte, n2: nat, b: Byte, n3: nat, c: Byte)
    requires n1 >= 1 && n2 >= 1 && n3 >= 1
    requires a != b && b != c
    requires IsAscii(a) && IsAscii(b) && IsAscii(c)
    ensures Compress(Repeat(n1, a) + Repeat(n2, b) + Repeat(n3, c))
            == Compressed(Field(Run(n1, a)) + Field(Run(n2, b)) + Field(Run(n3, c)))
  {
    var r1, r2, r3 := Run(n1, a), Run(n2, b), Run(n3, c);
    var rs := [r1, r2] + [r3];
    ExpandSingle(r1);
    SingleRun(r1);
    ExpandSingle(r2);
    SingleRun(r2);
    ExpandSingle(r3);
    SingleRun(r3);
    ExpandAppend([r1], [r2]);
    ExpandAppend([r1, r2], [r3]);
    TextAppend([r1], [r2]);
    TextAppend([r1, r2], [r3]);
    CompressOfRuns(rs);
  }
}
