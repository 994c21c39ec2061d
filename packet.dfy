/** `Revactor::Filter::Packet` (lib/revactor/filters/packet.rb): frames
    carrying a 2- or 4-byte unsigned big-endian length prefix. */
module PacketCodec {
  import opened Base
  import opened Values

  /** 256 to the power k. */
  function Pow256(k: nat): (r: nat)
    ensures r >= 1
  {
    if k == 0 then 1 else 256 * Pow256(k - 1)
  }

  /** `256 ** @prefix_size`: the first payload size a prefix cannot carry. */
  function Limit(k: nat): nat {
    Pow256(k)
  }

  lemma LimitValues()
    ensures Limit(2) == 65536 && Limit(4) == 4294967296
  {
  }

  /** `unpack('n')` / `unpack('N')`: big-endian unsigned value of the bytes. */
  function Unpack(b: Bytes): (r: nat)
    ensures r < Pow256(|b|)
  {
    if b == [] then 0 else Unpack(b[..|b| - 1]) * 256 + b[|b| - 1] as int
  }

  /** `[n].pack('n')` / `[n].pack('N')`: n as k big-endian bytes. */
  function Pack(n: nat, k: nat): (r: Bytes)
    ensures |r| == k
  {
    if k == 0 then [] else Pack(n / 256, k - 1) + [(n % 256) as byte]
  }

  /** Packing then unpacking gives back every value below the limit. */
  lemma {:induction false} UnpackPack(n: nat, k: nat)
    requires n < Pow256(k)
    ensures Unpack(Pack(n, k)) == n
  {
    if k > 0 {
      UnpackPack(n / 256, k - 1);
      var p := Pack(n, k);
      assert p[..k - 1] == Pack(n / 256, k - 1);
    }
  }

  /** Unpacking then packing gives back the bytes. */
  lemma {:induction false} PackUnpack(b: Bytes)
    ensures Pack(Unpack(b), |b|) == b
  {
    if b != [] {
      var init := b[..|b| - 1];
      PackUnpack(init);
      var n := Unpack(b);
      assert n / 256 == Unpack(init) && n % 256 == b[|b| - 1] as int;
      assert b == init + [b[|b| - 1]];
    }
  }

  /** The sample frames of the specs: 13 as a 2-byte prefix is 0x00 0x0d,
      as a 4-byte prefix 0x00 0x00 0x00 0x0d. */
  lemma PackExamples()
    ensures Pack(13, 2) == [0, 13] && Pack(13, 4) == [0, 0, 0, 13]
  {
  }

  /** The prefix sizes `Packet.new` accepts. */
  type PrefixSize = k: nat | k == 2 || k == 4 witness 2

  datatype Mode = Prefix | Data

  /** The decoder state: `@mode`, `@data_size` and `@buffer`. */
  datatype PacketState = PacketState(mode: Mode, dataSize: nat, buffer: Bytes)

  /** Whether `decode`'s loop breaks in state s: a prefix needs k buffered
      bytes, a payload `dataSize` of them. */
  predicate Stalled(k: nat, s: PacketState) {
    if s.mode.Prefix? then |s.buffer| < k else |s.buffer| < s.dataSize
  }

  /** One half-iteration of the loop in a state that is not stalled: read a
      prefix (no frame) or read a payload (one frame). */
  function Step(k: nat, s: PacketState): (seq<Bytes>, PacketState)
    requires !Stalled(k, s)
  {
    if s.mode.Prefix? then ([], PacketState(Data, Unpack(s.buffer[..k]), s.buffer[k..]))
    else ([s.buffer[..s.dataSize]], PacketState(Prefix, s.dataSize, s.buffer[s.dataSize..]))
  }

  /** The `begin … end until @buffer.empty?` loop of `decode` from state s:
      the frames read and the state it stops in. */
  function Drain(k: nat, s: PacketState): (seq<Bytes>, PacketState)
    requires k > 0
    decreases |s.buffer|, if s.mode.Data? then 1 else 0
  {
    if Stalled(k, s) then ([], s)
    else
      var (f, t) := Step(k, s);
      var (g, u) := Drain(k, t);
      (f + g, u)
  }

  /** Decoding stops exactly when too few bytes remain, and never grows the
      buffer. */
  lemma {:induction false} DrainStops(k: nat, s: PacketState)
    requires k > 0
    ensures Stalled(k, Drain(k, s).1)
    ensures |Drain(k, s).1.buffer| <= |s.buffer|
    decreases |s.buffer|, if s.mode.Data? then 1 else 0
  {
    if !Stalled(k, s) {
      DrainStops(k, Step(k, s).1);
    }
  }

  /** The bytes a state has taken in but not yet emitted: the prefix of the
      pending frame when in data mode, then the buffer. */
  function Pending(k: nat, s: PacketState): Bytes {
    (if s.mode.Data? then Pack(s.dataSize, k) else []) + s.buffer
  }

  /** The frames, each with its k-byte prefix (sizes taken modulo 256^k). */
  function Frames(k: nat, ps: seq<Bytes>): Bytes {
    if ps == [] then [] else Pack(|ps[0]|, k) + ps[0] + Frames(k, ps[1..])
  }

  /** A state decoding could have reached: a pending size fits the prefix. */
  predicate Reachable(k: nat, s: PacketState) {
    s.mode.Data? ==> s.dataSize < Pow256(k)
  }

  /** Conservation: what a state holds is the frames it emits, re-encoded,
      followed by what the final state holds.  So all bytes ever fed equal
      the emitted frames re-encoded, plus the pending prefix, plus the
      buffer. */
  lemma {:induction false} DrainConserves(k: nat, s: PacketState)
    requires k > 0 && Reachable(k, s)
    ensures Reachable(k, Drain(k, s).1)
    ensures Pending(k, s) == Frames(k, Drain(k, s).0) + Pending(k, Drain(k, s).1)
    decreases |s.buffer|, if s.mode.Data? then 1 else 0
  {
    if !Stalled(k, s) {
      var (f, t) := Step(k, s);
      StepConserves(k, s);
      DrainConserves(k, t);
      var (g, u) := Drain(k, t);
      FramesAppend(k, f, g);
    }
  }

  /** One step keeps what is held, moving a payload into the frames. */
  lemma StepConserves(k: nat, s: PacketState)
    requires k > 0 && Reachable(k, s) && !Stalled(k, s)
    ensures Reachable(k, Step(k, s).1)
    ensures Pending(k, s) == Frames(k, Step(k, s).0) + Pending(k, Step(k, s).1)
  {
    var t := Step(k, s).1;
    if s.mode.Prefix? {
      PackUnpack(s.buffer[..k]);
      assert s.buffer == s.buffer[..k] + s.buffer[k..];
    } else {
      var p := s.buffer[..s.dataSize];
      assert Frames(k, [p]) == Pack(|p|, k) + p;
      assert s.buffer == p + t.buffer;
    }
  }

  lemma {:induction false} FramesAppend(k: nat, xs: seq<Bytes>, ys: seq<Bytes>)
    ensures Frames(k, xs + ys) == Frames(k, xs) + Frames(k, ys)
  {
    if xs == [] {
      assert xs + ys == ys;
    } else {
      var head := Pack(|xs[0]|, k) + xs[0];
      var zs := xs + ys;
      assert zs[0] == xs[0] && zs[1..] == xs[1..] + ys;
      calc {
        Frames(k, zs);
        head + Frames(k, xs[1..] + ys);
        { FramesAppend(k, xs[1..], ys); }
        head + (Frames(k, xs[1..]) + Frames(k, ys));
        (head + Frames(k, xs[1..])) + Frames(k, ys);
        Frames(k, xs) + Frames(k, ys);
      }
    }
  }

  /** Feeding more bytes only extends what is decoded: draining s with
      `extra` appended gives s's frames followed by the frames of its final
      state with `extra` appended.  This is what makes split frames
      reassemble across `decode` calls. */
  lemma {:induction false} DrainAppend(k: nat, s: PacketState, extra: Bytes)
    requires k > 0
    ensures var (f1, t1) := Drain(k, s);
            var (f2, t2) := Drain(k, t1.(buffer := t1.buffer + extra));
            Drain(k, s.(buffer := s.buffer + extra)) == (f1 + f2, t2)
    decreases |s.buffer|, if s.mode.Data? then 1 else 0
  {
    var s' := s.(buffer := s.buffer + extra);
    if Stalled(k, s) {
      assert [] + Drain(k, s').0 == Drain(k, s').0;
    } else {
      var (f, t) := Step(k, s);
      StepAppend(k, s, extra);
      DrainAppend(k, t, extra);
      var (g, u) := Drain(k, t);
      var (h, w) := Drain(k, u.(buffer := u.buffer + extra));
      assert f + (g + h) == (f + g) + h;
    }
  }

  /** A step does the same with more bytes buffered, keeping them. */
  lemma StepAppend(k: nat, s: PacketState, extra: Bytes)
    requires k > 0 && !Stalled(k, s)
    ensures !Stalled(k, s.(buffer := s.buffer + extra))
    ensures var (f, t) := Step(k, s);
            Step(k, s.(buffer := s.buffer + extra)) == (f, t.(buffer := t.buffer + extra))
  {
    var s' := s.(buffer := s.buffer + extra);
    if s.mode.Prefix? {
      assert s'.buffer[..k] == s.buffer[..k];
      assert s'.buffer[k..] == s.buffer[k..] + extra;
    } else {
      assert s'.buffer[..s.dataSize] == s.buffer[..s.dataSize];
      assert s'.buffer[s.dataSize..] == s.buffer[s.dataSize..] + extra;
    }
  }

  /** The initial decoder state. */
  function Fresh(): PacketState {
    PacketState(Prefix, 0, [])
  }

  /** Round trip: a fresh decoder fed the framing of payloads that fit the
      prefix emits exactly those payloads and ends in prefix mode with an
      empty buffer. */
  lemma {:induction false} DrainFrames(k: nat, ps: seq<Bytes>, size: nat)
    requires k > 0
    requires forall i :: 0 <= i < |ps| ==> |ps[i]| < Pow256(k)
    ensures Drain(k, PacketState(Prefix, size, Frames(k, ps))).0 == ps
    ensures Drain(k, PacketState(Prefix, size, Frames(k, ps))).1.mode.Prefix?
    ensures Drain(k, PacketState(Prefix, size, Frames(k, ps))).1.buffer == []
    decreases |ps|
  {
    if ps != [] {
      var p := ps[0];
      var restBuf := Frames(k, ps[1..]);
      assert Frames(k, ps) == Pack(|p|, k) + (p + restBuf);
      DrainFrame(k, p, restBuf, size);
      DrainFrames(k, ps[1..], |p|);
      assert ps == [p] + ps[1..];
    }
  }

  /** A frame at the head of the buffer is read in two steps, leaving the
      bytes after it. */
  lemma DrainFrame(k: nat, p: Bytes, restBuf: Bytes, size: nat)
    requires k > 0 && |p| < Pow256(k)
    ensures var u := PacketState(Prefix, |p|, restBuf);
            Drain(k, PacketState(Prefix, size, Pack(|p|, k) + (p + restBuf))) ==
            ([p] + Drain(k, u).0, Drain(k, u).1)
  {
    var s := PacketState(Prefix, size, Pack(|p|, k) + (p + restBuf));
    assert s.buffer[..k] == Pack(|p|, k);
    assert s.buffer[k..] == p + restBuf;
    UnpackPack(|p|, k);
    var t := PacketState(Data, |p|, p + restBuf);
    assert Step(k, s) == ([], t);
    assert t.buffer[..|p|] == p && t.buffer[|p|..] == restBuf;
    var u := PacketState(Prefix, |p|, restBuf);
    assert Step(k, t) == ([p], u);
    assert [] + ([p] + Drain(k, u).0) == [p] + Drain(k, u).0;
  }

  /** `encode(*data)`: every payload with its prefix, or ArgumentError when
      some payload is 256^k bytes or longer. */
  function EncodeFrames(k: nat, ps: seq<Bytes>): (r: Result<Bytes>)
    ensures r.Ok? <==> forall i :: 0 <= i < |ps| ==> |ps[i]| < Limit(k)
    ensures r.Ok? ==> r.value == Frames(k, ps)
    ensures r.Err? ==> r.error == ArgumentError("packet too long for prefix length")
  {
    if ps == [] then Ok([])
    else if |ps[0]| >= Limit(k) then Err(ArgumentError("packet too long for prefix length"))
    else match EncodeFrames(k, ps[1..])
      case Err(e) => Err(e)
      case Ok(rest) => Ok(Pack(|ps[0]|, k) + ps[0] + rest)
  }

  /** Decoding what encode produced, on a fresh decoder, gives the payloads
      back. */
  lemma DecodeEncode(k: nat, ps: seq<Bytes>)
    requires k == 2 || k == 4
    requires EncodeFrames(k, ps).Ok?
    ensures Drain(k, Fresh().(buffer := Fresh().buffer + EncodeFrames(k, ps).value)).0 == ps
  {
    DrainFrames(k, ps, 0);
    assert Fresh().(buffer := Fresh().buffer + Frames(k, ps)) == PacketState(Prefix, 0, Frames(k, ps));
  }

  /** A 65537-byte payload cannot be framed with a 2-byte prefix. */
  lemma OverlengthExample(p: Bytes)
    requires |p| == 65537
    ensures EncodeFrames(2, [p]) == Err(ArgumentError("packet too long for prefix length"))
  {
  }

  /** The loop of `decode` is on its way to goal: the frames received so
      far, followed by those draining s gives, are goal's frames, and s
      drains to goal's state. */
  ghost predicate DrainingTo(k: nat, received: seq<Bytes>, s: PacketState, goal: (seq<Bytes>, PacketState))
    requires k > 0
  {
    received + Drain(k, s).0 == goal.0 && Drain(k, s).1 == goal.1
  }

  lemma DrainingDone(k: nat, received: seq<Bytes>, s: PacketState, goal: (seq<Bytes>, PacketState))
    requires k > 0 && DrainingTo(k, received, s, goal) && Stalled(k, s)
    ensures (received, s) == goal
  {
    assert received + [] == received;
  }

  lemma PrefixRead(k: nat, received: seq<Bytes>, s: PacketState, goal: (seq<Bytes>, PacketState))
    requires k > 0 && DrainingTo(k, received, s, goal) && s.mode.Prefix? && |s.buffer| >= k
    ensures DrainingTo(k, received, PacketState(Data, Unpack(s.buffer[..k]), s.buffer[k..]), goal)
  {
    var t := PacketState(Data, Unpack(s.buffer[..k]), s.buffer[k..]);
    assert Step(k, s) == ([], t);
    assert [] + Drain(k, t).0 == Drain(k, t).0;
  }

  lemma PayloadRead(k: nat, received: seq<Bytes>, s: PacketState, goal: (seq<Bytes>, PacketState))
    requires k > 0 && DrainingTo(k, received, s, goal) && s.mode.Data? && |s.buffer| >= s.dataSize
    ensures DrainingTo(k, received + [s.buffer[..s.dataSize]],
                       PacketState(Prefix, s.dataSize, s.buffer[s.dataSize..]), goal)
  {
    var frame := s.buffer[..s.dataSize];
    var t := PacketState(Prefix, s.dataSize, s.buffer[s.dataSize..]);
    assert Step(k, s) == ([frame], t);
    assert received + ([frame] + Drain(k, t).0) == (received + [frame]) + Drain(k, t).0;
  }

  /** `Revactor::Filter::Packet`. */
  class PacketFilter {
    const prefixSize: PrefixSize
    var dataSize: nat
    var mode: Mode
    var buffer: Bytes

    function State(): PacketState
      reads this
    {
      PacketState(mode, dataSize, buffer)
    }

    constructor(size: PrefixSize)
      ensures prefixSize == size && State() == Fresh()
    {
      prefixSize := size;
      dataSize := 0;
      mode := Prefix;
      buffer := [];
    }

    /** `Packet.new(size = 2)`: only 2- and 4-byte prefixes. */
    static method New(size: Option<int>) returns (r: Result<PacketFilter>)
      ensures var n := size.GetOr(2);
              (n != 2 && n != 4 ==> r == Err(ArgumentError("only 2 or 4 byte prefixes are supported"))) &&
              (n == 2 || n == 4 ==> r.Ok? && fresh(r.value) && r.value.prefixSize == n &&
                                    r.value.State() == Fresh())
    {
      var n := size.GetOr(2);
      if n != 2 && n != 4 {
        return Err(ArgumentError("only 2 or 4 byte prefixes are supported"));
      }
      var f := new PacketFilter(n);
      r := Ok(f);
    }

    /** `decode(data)`: buffers the data, then reads prefixes and payloads
        while enough bytes are there; mode, size and leftover bytes persist. */
    method Decode(data: Bytes) returns (received: seq<Bytes>)
      modifies this
      ensures (received, State()) == Drain(prefixSize, old(State()).(buffer := old(buffer) + data))
    {
      received := [];
      buffer := buffer + data;
      assert State() == old(State()).(buffer := old(buffer) + data);
      ghost var goal := Drain(prefixSize, State());
      assert received + goal.0 == goal.0;
      while true
        invariant DrainingTo(prefixSize, received, State(), goal)
        decreases |buffer|, if mode.Data? then 1 else 0
      {
        if mode.Prefix? {
          if |buffer| < prefixSize {
            DrainingDone(prefixSize, received, State(), goal);
            break;
          }
          PrefixRead(prefixSize, received, State(), goal);
          var prefix := buffer[..prefixSize];
          buffer := buffer[prefixSize..];
          dataSize := Unpack(prefix);
          mode := Data;
        }
        if |buffer| < dataSize {
          DrainingDone(prefixSize, received, State(), goal);
          break;
        }
        PayloadRead(prefixSize, received, State(), goal);
        var frame := buffer[..dataSize];
        received := received + [frame];
        buffer := buffer[dataSize..];
        mode := Prefix;
        if buffer == [] {
          DrainingDone(prefixSize, received, State(), goal);
          break;
        }
      }
    }

    /** `encode(*data)`. */
    function Encode(data: seq<Bytes>): (r: Result<Bytes>)
      ensures r.Ok? ==> Drain(prefixSize, Fresh().(buffer := r.value)).0 == data
      ensures r.Err? <==> exists i :: 0 <= i < |data| && |data[i]| >= Limit(prefixSize)
    {
      var r := EncodeFrames(prefixSize, data);
      if r.Ok? then
        DrainFrames(prefixSize, data, 0);
        r
      else r
    }
  }
}
