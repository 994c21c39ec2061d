/** `Revactor::Filter::Line` (lib/revactor/filters/line.rb): a line buffer
    that splits incoming data on a one-byte delimiter and frames outgoing
    lines by appending the delimiter. */
module LineCodec {
  import opened Base
  import opened Values

  /** `MAX_LENGTH`, the default size limit. */
  const MAX_LENGTH: nat := 1048576
  const LF: byte := 10
  const CR: byte := 13

  /** `encode(*data)`: every line followed by the delimiter. */
  function Encode(lines: seq<Bytes>, d: byte): (r: Bytes)
    ensures |r| >= |lines|
    ensures lines != [] ==> |r| > 0 && r[|r| - 1] == d
  {
    if lines == [] then [] else lines[0] + [d] + Encode(lines[1..], d)
  }

  /** `s.split(d, -1)` for a non-empty s: every field between delimiters,
      empty ones included. */
  function Segments(s: Bytes, d: byte): (r: seq<Bytes>)
    ensures |r| >= 1
    ensures forall i :: 0 <= i < |r| ==> d !in r[i]
    decreases |s|
  {
    if s == [] then [[]]
    else if s[0] == d then [[]] + Segments(s[1..], d)
    else
      var rest := Segments(s[1..], d);
      [[s[0]] + rest[0]] + rest[1..]
  }

  /** The fields, joined back with the delimiter, give the string again. */
  lemma {:induction false} SegmentsJoin(s: Bytes, d: byte)
    ensures var r := Segments(s, d); Encode(r[..|r| - 1], d) + r[|r| - 1] == s
    decreases |s|
  {
    if s != [] {
      var rest := Segments(s[1..], d);
      SegmentsJoin(s[1..], d);
      if s[0] == d {
        JoinAfterDelimiter(s, d, rest);
      } else {
        JoinAfterByte(s, d, rest);
      }
    }
  }

  /** SegmentsJoin when the string starts with the delimiter: an empty
      first field. */
  lemma JoinAfterDelimiter(s: Bytes, d: byte, rest: seq<Bytes>)
    requires s != [] && s[0] == d && rest != []
    requires Encode(rest[..|rest| - 1], d) + rest[|rest| - 1] == s[1..]
    ensures var r := [[]] + rest; Encode(r[..|r| - 1], d) + r[|r| - 1] == s
  {
    var r := [[]] + rest;
    var init, last := rest[..|rest| - 1], rest[|rest| - 1];
    assert r[..|r| - 1] == [[]] + init;
    EncodeCons([], init, d);
    assert ([d] + Encode(init, d)) + last == s;
  }

  /** SegmentsJoin when the string starts with another byte: it joins the
      first field of the rest. */
  lemma JoinAfterByte(s: Bytes, d: byte, rest: seq<Bytes>)
    requires s != [] && s[0] != d && rest != []
    requires Encode(rest[..|rest| - 1], d) + rest[|rest| - 1] == s[1..]
    ensures var r := [[s[0]] + rest[0]] + rest[1..]; Encode(r[..|r| - 1], d) + r[|r| - 1] == s
  {
    var r := [[s[0]] + rest[0]] + rest[1..];
    var init, last := rest[..|rest| - 1], rest[|rest| - 1];
    if |rest| == 1 {
      assert r == [[s[0]] + last];
      assert s == [s[0]] + s[1..];
    } else {
      var mid := rest[1..|rest| - 1];
      assert r[..|r| - 1] == [[s[0]] + rest[0]] + mid;
      assert init == [rest[0]] + mid;
      EncodeCons([s[0]] + rest[0], mid, d);
      EncodeCons(rest[0], mid, d);
      assert ([s[0]] + Encode(init, d)) + last == s;
    }
  }

  lemma EncodeCons(x: Bytes, xs: seq<Bytes>, d: byte)
    ensures Encode([x] + xs, d) == x + [d] + Encode(xs, d)
  {
    assert ([x] + xs)[1..] == xs;
  }

  /** A string without the delimiter is a single field. */
  lemma {:induction false} SegmentsWithoutDelimiter(s: Bytes, d: byte)
    requires d !in s
    ensures Segments(s, d) == [s]
    decreases |s|
  {
    if s != [] {
      assert d !in s[1..];
      SegmentsWithoutDelimiter(s[1..], d);
      assert s == [s[0]] + s[1..];
    }
  }

  /** Ruby's `split(d, -1)`: an empty string splits into no fields at all. */
  function Split(s: Bytes, d: byte): (r: seq<Bytes>)
    ensures s == [] <==> r == []
    ensures r != [] ==> Encode(r[..|r| - 1], d) + r[|r| - 1] == s
    ensures forall i :: 0 <= i < |r| ==> d !in r[i]
  {
    if s == [] then [] else SegmentsJoin(s, d); Segments(s, d)
  }

  /** `String#chomp`: drops one trailing "\r\n", "\n" or "\r". */
  function Chomp(s: Bytes): (r: Bytes)
    ensures r <= s && |s| <= |r| + 2
    ensures r == s <==> (s == [] || (s[|s| - 1] != LF && s[|s| - 1] != CR))
    ensures r == s || r + [LF] == s || r + [CR] == s || r + [CR, LF] == s
    ensures |s| >= 2 && s[|s| - 2] == CR && s[|s| - 1] == LF ==> r == s[..|s| - 2]
    ensures |s| >= 1 && s[|s| - 1] == LF && !(|s| >= 2 && s[|s| - 2] == CR) ==> r + [LF] == s
    ensures |s| >= 1 && s[|s| - 1] == CR ==> r + [CR] == s
  {
    if |s| >= 2 && s[|s| - 2] == CR && s[|s| - 1] == LF then s[..|s| - 2]
    else if |s| >= 1 && (s[|s| - 1] == LF || s[|s| - 1] == CR) then s[..|s| - 1]
    else s
  }

  /** The outcome of a successful decode: the complete lines before
      chomping, and the partial line left in the buffer. */
  datatype Decoded = Decoded(raw: seq<Bytes>, rest: Bytes) {
    /** The lines `decode` returns: the raw lines, chomped. */
    function Lines(): (r: seq<Bytes>)
      ensures |r| == |raw| && forall i :: 0 <= i < |r| ==> r[i] == Chomp(raw[i])
    {
      seq(|raw|, i requires 0 <= i < |raw| => Chomp(raw[i]))
    }
  }

  /** `decode(data)` with buffer `input`, delimiter d and size limit:
      empty data leaves `lines.first` nil and `nil.size` raises; the first
      field may not take the buffer past the limit; data without a
      delimiter only grows the buffer. */
  function DecodeSpec(input: Bytes, data: Bytes, d: byte, limit: nat): Result<Decoded>
  {
    var fields := Split(data, d);
    if fields == [] then Err(NoMethodError("undefined method `size' for nil"))
    else if |input| + |fields[0]| > limit then Err(RuntimeError("input buffer full"))
    else if |fields| == 1 then Ok(Decoded([], input + fields[0]))
    else Ok(Decoded([input + fields[0]] + fields[1..|fields| - 1], fields[|fields| - 1]))
  }

  /** Conservation: the old buffer and the data are exactly the raw lines,
      each followed by the delimiter, then the new buffer.  A buffer free of
      the delimiter stays free of it, and so is every raw line. */
  lemma DecodeConserves(input: Bytes, data: Bytes, d: byte, limit: nat)
    requires DecodeSpec(input, data, d, limit).Ok?
    ensures var dec := DecodeSpec(input, data, d, limit).value;
            input + data == Encode(dec.raw, d) + dec.rest &&
            (dec.raw != [] ==> d !in dec.rest) &&
            (d !in input ==> d !in dec.rest && forall i :: 0 <= i < |dec.raw| ==> d !in dec.raw[i])
  {
    var fields := Split(data, d);
    if |fields| == 1 {
      assert data == fields[0];
    } else {
      ConservesLines(input, data, fields, d);
    }
  }

  /** DecodeConserves when the data holds a delimiter: the buffer joins the
      first field, the middle fields are lines and the last one is left. */
  lemma ConservesLines(input: Bytes, data: Bytes, fields: seq<Bytes>, d: byte)
    requires |fields| >= 2 && Encode(fields[..|fields| - 1], d) + fields[|fields| - 1] == data
    requires forall i :: 0 <= i < |fields| ==> d !in fields[i]
    ensures var raw := [input + fields[0]] + fields[1..|fields| - 1];
            input + data == Encode(raw, d) + fields[|fields| - 1] &&
            (d !in input ==> forall i :: 0 <= i < |raw| ==> d !in raw[i])
  {
    var n := |fields|;
    var mid := fields[1..n - 1];
    var raw := [input + fields[0]] + mid;
    assert fields[..n - 1] == [fields[0]] + mid;
    EncodeCons(fields[0], mid, d);
    EncodeCons(input + fields[0], mid, d);
    assert input + data == Encode(raw, d) + fields[n - 1];
    if d !in input {
      forall i | 0 <= i < |raw|
        ensures d !in raw[i]
      {
        if i > 0 {
          assert raw[i] == fields[i];
        }
      }
    }
  }

  /** Data holding no delimiter (and within the limit) yields no lines and
      is appended to the buffer. */
  lemma DecodeWithoutDelimiter(input: Bytes, data: Bytes, d: byte, limit: nat)
    requires data != [] && d !in data && |input| + |data| <= limit
    ensures DecodeSpec(input, data, d, limit) == Ok(Decoded([], input + data))
  {
    SegmentsWithoutDelimiter(data, d);
  }

  /** The size check looks at the first field only, before anything is
      buffered: one that would take the buffer past the limit raises. */
  lemma DecodeOverLimit(input: Bytes, data: Bytes, d: byte, limit: nat)
    requires data != [] && |input| + |Split(data, d)[0]| > limit
    ensures DecodeSpec(input, data, d, limit) == Err(RuntimeError("input buffer full"))
  {
  }

  /** Empty data is an error (`nil.size`), whatever the buffer holds. */
  lemma DecodeEmptyData(input: Bytes, d: byte, limit: nat)
    ensures DecodeSpec(input, [], d, limit).Err?
    ensures DecodeSpec(input, [], d, limit).error.NoMethodError?
  {
  }

  /** In a framed line followed by anything, the first delimiter is the
      one right after the line. */
  lemma FirstDelimiter(x: Bytes, rest: Bytes, d: byte)
    requires d !in x
    ensures (x + [d] + rest)[|x|] == d
    ensures forall i :: 0 <= i < |x| ==> (x + [d] + rest)[i] != d
  {
    assert forall i :: 0 <= i < |x| ==> (x + [d] + rest)[i] == x[i];
  }

  /** Two framed lines with the same text around the first delimiter are
      the same line with the same remainder. */
  lemma HeadUnique(x: Bytes, t1: Bytes, y: Bytes, t2: Bytes, d: byte)
    requires d !in x && d !in y && x + [d] + t1 == y + [d] + t2
    ensures x == y && t1 == t2
  {
    FirstDelimiter(x, t1, d);
    FirstDelimiter(y, t2, d);
    var s := x + [d] + t1;
    assert |x| == |y|;
    assert x == s[..|x|] == y;
    assert t1 == s[|x| + 1..] == t2;
  }

  /** A non-empty framing contains the delimiter. */
  lemma FramedHasDelimiter(xs: seq<Bytes>, r: Bytes, d: byte)
    ensures xs != [] ==> d in Encode(xs, d) + r
  {
    if xs != [] {
      var t := Encode(xs[1..], d) + r;
      assert Encode(xs, d) + r == xs[0] + [d] + t;
      assert (xs[0] + [d] + t)[|xs[0]|] == d;
    }
  }

  /** Framing is unambiguous: delimiter-free lines followed by a
      delimiter-free tail split only one way. */
  lemma {:induction false} EncodeUnique(xs: seq<Bytes>, r: Bytes, ys: seq<Bytes>, r2: Bytes, d: byte)
    requires forall i :: 0 <= i < |xs| ==> d !in xs[i]
    requires forall i :: 0 <= i < |ys| ==> d !in ys[i]
    requires d !in r && d !in r2
    requires Encode(xs, d) + r == Encode(ys, d) + r2
    ensures xs == ys && r == r2
    decreases |xs|
  {
    FramedHasDelimiter(xs, r, d);
    FramedHasDelimiter(ys, r2, d);
    if xs != [] {
      var t1 := Encode(xs[1..], d) + r;
      var t2 := Encode(ys[1..], d) + r2;
      assert Encode(xs, d) + r == xs[0] + [d] + t1;
      assert Encode(ys, d) + r2 == ys[0] + [d] + t2;
      HeadUnique(xs[0], t1, ys[0], t2, d);
      EncodeUnique(xs[1..], r, ys[1..], r2, d);
      assert xs == [xs[0]] + xs[1..] && ys == [ys[0]] + ys[1..];
    } else {
      assert Encode(xs, d) + r == r;
      assert ys == [];
      assert Encode(ys, d) + r2 == r2;
    }
  }

  lemma {:induction false} EncodeAppend(xs: seq<Bytes>, ys: seq<Bytes>, d: byte)
    ensures Encode(xs + ys, d) == Encode(xs, d) + Encode(ys, d)
  {
    if xs == [] {
      assert xs + ys == ys;
    } else {
      assert (xs + ys)[0] == xs[0];
      assert (xs + ys)[1..] == xs[1..] + ys;
      EncodeAppend(xs[1..], ys, d);
    }
  }

  /** Fragmentation: feeding a and then b yields the same lines, in the same
      order, and the same buffer as feeding a + b at once (when no call
      raises and the buffer starts free of the delimiter). */
  lemma DecodeFragments(input: Bytes, a: Bytes, b: Bytes, d: byte, limit: nat,
                        first: Decoded, second: Decoded, whole: Decoded)
    requires d !in input
    requires DecodeSpec(input, a, d, limit) == Ok(first)
    requires DecodeSpec(first.rest, b, d, limit) == Ok(second)
    requires DecodeSpec(input, a + b, d, limit) == Ok(whole)
    ensures whole.raw == first.raw + second.raw && whole.rest == second.rest
    ensures whole.Lines() == first.Lines() + second.Lines()
  {
    DecodeConserves(input, a, d, limit);
    DecodeConserves(first.rest, b, d, limit);
    DecodeConserves(input, a + b, d, limit);
    FramesCompose(input, a, b, d, first, second, whole);
    LinesAppend(first, second, whole);
  }

  lemma LinesAppend(first: Decoded, second: Decoded, whole: Decoded)
    requires whole.raw == first.raw + second.raw
    ensures whole.Lines() == first.Lines() + second.Lines()
  {
    var l1, l2, l := first.Lines(), second.Lines(), whole.Lines();
    assert |l| == |l1 + l2|;
    forall i | 0 <= i < |l|
      ensures l[i] == (l1 + l2)[i]
    {
      if i < |l1| {
        assert whole.raw[i] == first.raw[i];
      } else {
        assert whole.raw[i] == second.raw[i - |l1|];
      }
    }
  }

  lemma FramesCompose(input: Bytes, a: Bytes, b: Bytes, d: byte,
                      first: Decoded, second: Decoded, whole: Decoded)
    requires input + a == Encode(first.raw, d) + first.rest
    requires first.rest + b == Encode(second.raw, d) + second.rest
    requires input + (a + b) == Encode(whole.raw, d) + whole.rest
    requires d !in first.rest && d !in second.rest && d !in whole.rest
    requires forall i :: 0 <= i < |first.raw| ==> d !in first.raw[i]
    requires forall i :: 0 <= i < |second.raw| ==> d !in second.raw[i]
    requires forall i :: 0 <= i < |whole.raw| ==> d !in whole.raw[i]
    ensures whole.raw == first.raw + second.raw && whole.rest == second.rest
  {
    EncodeAppend(first.raw, second.raw, d);
    NoDelimiterConcat(first.raw, second.raw, d);
    Regroup(input, a, b, Encode(first.raw, d), first.rest, Encode(second.raw, d), second.rest);
    EncodeUnique(whole.raw, whole.rest, first.raw + second.raw, second.rest, d);
  }

  /** Two framings in a row, regrouped as one. */
  lemma Regroup(input: Bytes, a: Bytes, b: Bytes, e1: Bytes, r1: Bytes, e2: Bytes, r2: Bytes)
    requires input + a == e1 + r1 && r1 + b == e2 + r2
    ensures input + (a + b) == (e1 + e2) + r2
  {
    calc {
      input + (a + b);
      (input + a) + b;
      (e1 + r1) + b;
      e1 + (r1 + b);
      e1 + (e2 + r2);
      (e1 + e2) + r2;
    }
  }

  lemma NoDelimiterConcat(xs: seq<Bytes>, ys: seq<Bytes>, d: byte)
    requires forall i :: 0 <= i < |xs| ==> d !in xs[i]
    requires forall i :: 0 <= i < |ys| ==> d !in ys[i]
    ensures forall i :: 0 <= i < |xs + ys| ==> d !in (xs + ys)[i]
  {
    forall i | 0 <= i < |xs + ys|
      ensures d !in (xs + ys)[i]
    {
      if i >= |xs| {
        assert (xs + ys)[i] == ys[i - |xs|];
      }
    }
  }

  /** Round trip: decoding the encoding of delimiter-free lines from an empty
      buffer returns exactly those lines (before chomping) and leaves the
      buffer empty. */
  lemma DecodeEncode(lines: seq<Bytes>, d: byte, limit: nat)
    requires lines != [] && |lines[0]| <= limit
    requires forall i :: 0 <= i < |lines| ==> d !in lines[i]
    ensures DecodeSpec([], Encode(lines, d), d, limit) == Ok(Decoded(lines, []))
  {
    var data := Encode(lines, d);
    var fields := Split(data, d);
    var n := |fields|;
    assert data == lines[0] + [d] + Encode(lines[1..], d);
    assert Encode(fields[..n - 1], d) + fields[n - 1] == Encode(lines, d) + [];
    EncodeUnique(fields[..n - 1], fields[n - 1], lines, [], d);
    assert n - 1 == |lines| && fields[0] == fields[..n - 1][0] == lines[0];
    assert [] + fields[0] == fields[0];
    assert fields[..n - 1] == [fields[0]] + fields[1..n - 1];
  }

  const FOO: Bytes := [102, 111, 111]
  const BAR: Bytes := [98, 97, 114]
  const BAZ: Bytes := [98, 97, 122]

  /** foo, bar and baz encode to "foo\nbar\nbaz\n". */
  lemma EncodeExample()
    ensures Encode([FOO, BAR, BAZ], LF) == FOO + [LF] + BAR + [LF] + BAZ + [LF]
  {
    assert [FOO, BAR, BAZ][1..] == [BAR, BAZ] && [BAR, BAZ][1..] == [BAZ];
    assert Encode([BAZ], LF) == BAZ + [LF];
  }

  /** "foo\nbar\r\nbaz\n" decodes to foo, bar and baz with nothing left. */
  lemma DecodeExample(data: Bytes)
    requires data == FOO + [LF] + BAR + [CR, LF] + BAZ + [LF]
    ensures var r := DecodeSpec([], data, LF, MAX_LENGTH);
            r.Ok? && r.value.Lines() == [FOO, BAR, BAZ] && r.value.rest == []
  {
    var lines := [FOO, BAR + [CR], BAZ];
    EncodeCRLFExample();
    ExampleLinesFree(lines);
    DecodeEncode(lines, LF, MAX_LENGTH);
    ExampleLinesChomped(lines);
  }

  lemma ExampleLinesFree(lines: seq<Bytes>)
    requires lines == [FOO, BAR + [CR], BAZ]
    ensures forall i :: 0 <= i < |lines| ==> LF !in lines[i]
  {
    assert LF !in lines[0] && LF !in lines[1] && LF !in lines[2];
  }

  lemma ExampleLinesChomped(lines: seq<Bytes>)
    requires lines == [FOO, BAR + [CR], BAZ]
    ensures Decoded(lines, []).Lines() == [FOO, BAR, BAZ]
  {
    var out := Decoded(lines, []).Lines();
    assert out[0] == Chomp(FOO) == FOO;
    assert out[1] == Chomp(BAR + [CR]) == BAR;
    assert out[2] == Chomp(BAZ) == BAZ;
  }

  lemma EncodeCRLFExample()
    ensures Encode([FOO, BAR + [CR], BAZ], LF) == FOO + [LF] + BAR + [CR, LF] + BAZ + [LF]
  {
    EncodeCons(BAZ, [], LF);
    EncodeCons(BAR + [CR], [BAZ], LF);
    EncodeCons(FOO, [BAR + [CR], BAZ], LF);
  }

  /** `Revactor::Filter::Line`: the partial-line buffer, the delimiter and
      the size limit. */
  class LineFilter {
    var input: Bytes
    const delimiter: byte
    const sizeLimit: nat

    /** `initialize(options)`: the delimiter defaults to "\n" and the limit
        to MAX_LENGTH. */
    constructor(delimiter: Option<byte>, maxlength: Option<nat>)
      ensures input == [] && this.delimiter == delimiter.GetOr(LF) &&
              sizeLimit == maxlength.GetOr(MAX_LENGTH)
    {
      input := [];
      this.delimiter := delimiter.GetOr(LF);
      sizeLimit := maxlength.GetOr(MAX_LENGTH);
    }

    /** `decode(data)`: on success the buffer moves on as DecodeSpec says and
        the chomped lines are returned; on an error nothing changes. */
    method Decode(data: Bytes) returns (r: Result<seq<Bytes>>)
      modifies this
      ensures var spec := DecodeSpec(old(input), data, delimiter, sizeLimit);
              (spec.Err? ==> r == Err(spec.error) && input == old(input)) &&
              (spec.Ok? ==> r == Ok(spec.value.Lines()) && input == spec.value.rest)
    {
      var lines := Split(data, delimiter);
      if lines == [] {
        return Err(NoMethodError("undefined method `size' for nil"));
      }
      if |input| + |lines[0]| > sizeLimit {
        return Err(RuntimeError("input buffer full"));
      }
      input := input + lines[0];
      lines := lines[1..];
      if lines == [] {
        return Ok([]);
      }
      lines := [input] + lines;
      input := lines[|lines| - 1];
      lines := lines[..|lines| - 1];
      ghost var dec := DecodeSpec(old(input), data, delimiter, sizeLimit).value;
      assert lines == dec.raw;
      var out := seq(|lines|, i requires 0 <= i < |lines| => Chomp(lines[i]));
      assert out == dec.Lines();
      r := Ok(out);
    }

    /** `encode(*data)`. */
    function EncodeLines(data: seq<Bytes>): (r: Bytes)
      ensures (forall i :: 0 <= i < |data| ==> delimiter !in data[i]) && data != [] &&
              |data[0]| <= sizeLimit ==>
                DecodeSpec([], r, delimiter, sizeLimit) == Ok(Decoded(data, []))
    {
      if (forall i :: 0 <= i < |data| ==> delimiter !in data[i]) && data != [] &&
         |data[0]| <= sizeLimit
      then
        DecodeEncode(data, delimiter, sizeLimit);
        Encode(data, delimiter)
      else
        Encode(data, delimiter)
    }
  }
}
