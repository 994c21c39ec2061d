/** The actor-facing sockets: `Revactor::TCP::Socket`/`Listener`
    (lib/revactor/tcp.rb) and `Revactor::UNIX::Socket`/`Listener`
    (lib/revactor/unix.rb).  The two files carry the same logic and differ
    only in the symbol that tags messages (`:tcp` or `:unix`), so one class
    each, parameterised by the `Family`, models both.  Filter objects are
    held as codec values and run through the line and packet step
    functions; what the socket sends to `@receiver` is appended to an
    outbox. */
module Sockets {
  import opened Base
  import opened Values
  import opened Actors
  import LineCodec
  import PacketCodec

  datatype Family = Tcp | Unix

  /** The message tag: `:tcp` or `:unix`. */
  function Tag(f: Family): string {
    match f
    case Tcp => "tcp"
    case Unix => "unix"
  }

  // ---------------------------------------------------------------------
  // Filter set up (`initialize_filter`, `symbol_to_filter`)
  // ---------------------------------------------------------------------

  /** The two filter classes. */
  datatype FilterClass = LineClass | PacketClass

  /** What a Tuple filter passes to the class's `new`: nothing, the Line
      options hash, or the Packet prefix size. */
  datatype FilterArgs =
    | Defaults
    | LineOptions(delimiter: Option<byte>, maxlength: Option<nat>)
    | PacketSize(size: int)

  /** The `:filter` option: nil, a symbol, a class, a Tuple `T[name, args]`,
      an Array of filter options, or any other object (named by its class). */
  datatype FilterSpec =
    | NilSpec
    | SymSpec(name: string)
    | ClassSpec(cls: FilterClass)
    | TupleSpec(head: FilterSpec, args: FilterArgs)
    | ArraySpec(items: seq<FilterSpec>)
    | OtherSpec(className: string)

  /** The Ruby class name of a filter option, as an error message shows it. */
  function SpecClassName(s: FilterSpec): string {
    match s
    case NilSpec => "NilClass"
    case SymSpec(_) => "Symbol"
    case ClassSpec(_) => "Class"
    case TupleSpec(_, _) => "Tuple"
    case ArraySpec(_) => "Array"
    case OtherSpec(c) => c
  }

  /** A filter object's state: a Line filter's `@input`, delimiter and
      limit, or a Packet filter's prefix size and decoder state. */
  datatype Codec =
    | Line(input: Bytes, delimiter: byte, limit: nat)
    | Packet(size: PacketCodec.PrefixSize, state: PacketCodec.PacketState)

  /** A codec as its class's `new` leaves it. */
  predicate Fresh(c: Codec) {
    match c
    case Line(input, _, _) => input == []
    case Packet(_, s) => s == PacketCodec.Fresh()
  }

  /** What `initialize_filter` returns: one filter, an Array of results, or
      nil (for an option of no recognised kind). */
  datatype Built = Single(codec: Codec) | Several(items: seq<Built>) | NoFilter

  /** An element of `@filterset`: a filter, or an object that is not one
      (an Array or nil left there by a nested filter option). */
  datatype Entry = Filter(codec: Codec) | NotAFilter(className: string)

  /** `symbol_to_filter`: `:line` and `:packet`, nothing else. */
  function SymbolToFilter(name: string): (r: Result<FilterClass>)
    ensures r.Ok? <==> name == "line" || name == "packet"
    ensures r.Ok? ==> (r.value == LineClass <==> name == "line")
    ensures r.Err? ==> r.error == ArgumentError("unrecognized filter type: " + name)
  {
    if name == "line" then Ok(LineClass)
    else if name == "packet" then Ok(PacketClass)
    else Err(ArgumentError("unrecognized filter type: " + name))
  }

  /** `cls.new(*args)`: a fresh codec, or the constructor's error. */
  function Construct(cls: FilterClass, args: FilterArgs): (r: Result<Codec>)
    ensures r.Ok? ==> Fresh(r.value)
    ensures r.Ok? ==> (r.value.Line? <==> cls == LineClass)
    ensures cls == PacketClass ==>
              (r.Ok? <==> args == Defaults || args == PacketSize(2) || args == PacketSize(4))
    ensures cls == PacketClass && r.Ok? ==> r.value.size == (if args.PacketSize? then args.size else 2)
    ensures cls == PacketClass && r.Err? ==>
              r.error == ArgumentError("only 2 or 4 byte prefixes are supported")
    ensures cls == LineClass && args == Defaults ==>
              r == Ok(Line([], LineCodec.LF, LineCodec.MAX_LENGTH))
    ensures cls == LineClass && args.LineOptions? ==>
              r == Ok(Line([], args.delimiter.GetOr(LineCodec.LF), args.maxlength.GetOr(LineCodec.MAX_LENGTH)))
    ensures cls == LineClass && args.PacketSize? ==> r == Err(ArgumentError("unsupported filter arguments"))
  {
    match cls
    case PacketClass =>
      var n := if args.PacketSize? then args.size
               else if args.Defaults? then 2
               else 0;  // an options hash is never == 2 or == 4
      if n == 2 || n == 4 then Ok(Packet(n, PacketCodec.Fresh()))
      else Err(ArgumentError("only 2 or 4 byte prefixes are supported"))
    case LineClass =>
      match args
      case Defaults => Ok(Line([], LineCodec.LF, LineCodec.MAX_LENGTH))
      case LineOptions(d, m) => Ok(Line([], d.GetOr(LineCodec.LF), m.GetOr(LineCodec.MAX_LENGTH)))
      case PacketSize(_) => Err(ArgumentError("unsupported filter arguments"))
  }

  /** `initialize_filter(filter)`. */
  function InitializeFilter(spec: FilterSpec): (r: Result<Built>)
    ensures spec.NilSpec? ==> r == Ok(Several([]))
    ensures spec.OtherSpec? ==> r == Ok(NoFilter)
    ensures spec.SymSpec? && SymbolToFilter(spec.name).Err? ==> r == Err(SymbolToFilter(spec.name).error)
    ensures r.Ok? && (spec.SymSpec? || spec.ClassSpec? || spec.TupleSpec?) ==>
              r.value.Single? && Fresh(r.value.codec)
    ensures spec.TupleSpec? && !spec.head.SymSpec? && !spec.head.ClassSpec? ==>
              r == Err(ArgumentError("unrecognized filter type: " + SpecClassName(spec.head)))
    decreases spec, 1
  {
    match spec
    case NilSpec => Ok(Several([]))
    case TupleSpec(head, args) =>
      if head.ClassSpec? then
        var c :- Construct(head.cls, args);
        Ok(Single(c))
      else if head.SymSpec? then
        var cls :- SymbolToFilter(head.name);
        var c :- Construct(cls, args);
        Ok(Single(c))
      else Err(ArgumentError("unrecognized filter type: " + SpecClassName(head)))
    case ArraySpec(items) =>
      var built :- InitializeAll(spec, 0);
      Ok(Several(built))
    case ClassSpec(cls) =>
      var c :- Construct(cls, Defaults);
      Ok(Single(c))
    case SymSpec(name) =>
      var cls :- SymbolToFilter(name);
      var c :- Construct(cls, Defaults);
      Ok(Single(c))
    case OtherSpec(_) => Ok(NoFilter)
  }

  /** `filter.map { |f| initialize_filter f }` over the items from index i:
      each item's result in order, or the first item's error. */
  function InitializeAll(spec: FilterSpec, i: nat): (r: Result<seq<Built>>)
    requires spec.ArraySpec? && i <= |spec.items|
    ensures r.Ok? <==> forall j :: i <= j < |spec.items| ==> InitializeFilter(spec.items[j]).Ok?
    ensures r.Ok? ==> |r.value| == |spec.items| - i &&
                      forall j :: i <= j < |spec.items| ==> r.value[j - i] == InitializeFilter(spec.items[j]).value
    decreases spec, 0, |spec.items| - i
  {
    if i == |spec.items| then Ok([])
    else
      var b := InitializeFilter(spec.items[i]);
      if b.Err? then Err(b.error)
      else
        var bs := InitializeAll(spec, i + 1);
        if bs.Err? then bs else Ok([b.value] + bs.value)
  }

  /** `map` raises the error of the first item whose set up fails. */
  lemma {:induction false} InitializeAllFirstError(spec: FilterSpec, i: nat)
    requires spec.ArraySpec? && i <= |spec.items|
    requires InitializeAll(spec, i).Err?
    ensures exists j :: i <= j < |spec.items| && InitializeFilter(spec.items[j]).Err? &&
                        InitializeAll(spec, i).error == InitializeFilter(spec.items[j]).error &&
                        forall l :: i <= l < j ==> InitializeFilter(spec.items[l]).Ok?
    decreases |spec.items| - i
  {
    if InitializeFilter(spec.items[i]).Ok? {
      InitializeAllFirstError(spec, i + 1);
      var j :| i + 1 <= j < |spec.items| && InitializeFilter(spec.items[j]).Err? &&
               InitializeAll(spec, i + 1).error == InitializeFilter(spec.items[j]).error &&
               forall l :: i + 1 <= l < j ==> InitializeFilter(spec.items[l]).Ok?;
      assert forall l :: i <= l < j ==> InitializeFilter(spec.items[l]).Ok?;
    } else {
      assert InitializeAll(spec, i).error == InitializeFilter(spec.items[i]).error;
    }
  }

  /** An element of `[*built]`. */
  function AsEntry(b: Built): Entry {
    match b
    case Single(c) => Filter(c)
    case Several(_) => NotAFilter("Array")
    case NoFilter => NotAFilter("NilClass")
  }

  /** `@filterset = [*initialize_filter(...)]`. */
  function Filterset(b: Built): (r: seq<Entry>)
    ensures b.Single? ==> r == [Filter(b.codec)]
    ensures b.NoFilter? ==> r == []
    ensures b.Several? ==> |r| == |b.items| && forall i :: 0 <= i < |r| ==> r[i] == AsEntry(b.items[i])
  {
    match b
    case Single(c) => [Filter(c)]
    case Several(items) => seq(|items|, i requires 0 <= i < |items| => AsEntry(items[i]))
    case NoFilter => []
  }

  /** No `:filter` option gives an empty filter set; an Array of filter
      names gives one fresh filter per name, in order. */
  lemma FiltersetOfNames(spec: FilterSpec)
    requires spec.ArraySpec?
    requires forall j :: 0 <= j < |spec.items| ==>
               spec.items[j].SymSpec? && spec.items[j].name in {"line", "packet"}
    ensures Filterset(InitializeFilter(NilSpec).value) == []
    ensures InitializeFilter(spec).Ok?
    ensures var fs := Filterset(InitializeFilter(spec).value);
            |fs| == |spec.items| &&
            forall j :: 0 <= j < |fs| ==>
              fs[j].Filter? && Fresh(fs[j].codec) &&
              (fs[j].codec.Line? <==> spec.items[j].name == "line")
  {
    var items := spec.items;
    forall j | 0 <= j < |items|
      ensures InitializeFilter(items[j]).Ok?
      ensures AsEntry(InitializeFilter(items[j]).value).Filter?
      ensures Fresh(AsEntry(InitializeFilter(items[j]).value).codec)
      ensures AsEntry(InitializeFilter(items[j]).value).codec.Line? <==> items[j].name == "line"
    {
      var cls := SymbolToFilter(items[j].name);
      assert cls.Ok?;
      assert Construct(cls.value, Defaults).Ok?;
      assert InitializeFilter(items[j]) == Ok(Single(Construct(cls.value, Defaults).value));
    }
    var built := InitializeAll(spec, 0);
    assert InitializeFilter(spec) == Ok(Several(built.value));
    assert forall j :: 0 <= j < |items| ==> built.value[j] == InitializeFilter(items[j]).value;
  }

  // ---------------------------------------------------------------------
  // The filter chain (`decode`, `encode`)
  // ---------------------------------------------------------------------

  /** `entry.decode(d)`: the decoded messages (or the error raised) and the
      entry's new state.  A Line filter that raises is left unchanged. */
  function DecodeEntry(e: Entry, d: Bytes): (r: (Result<seq<Bytes>>, Entry))
    ensures r.0.Err? && e.Filter? && e.codec.Line? ==> r.1 == e
    ensures e.Filter? ==> r.1.Filter? && r.1.codec.Line? == e.codec.Line?
  {
    match e
    case NotAFilter(c) => (Err(NoMethodError("undefined method `decode' for " + c)), e)
    case Filter(Line(input, dl, lim)) =>
      (match LineCodec.DecodeSpec(input, d, dl, lim)
       case Ok(dec) => (Ok(dec.Lines()), Filter(Line(dec.rest, dl, lim)))
       case Err(err) => (Err(err), e))
    case Filter(Packet(k, s)) =>
      var (fs, t) := PacketCodec.Drain(k, s.(buffer := s.buffer + d));
      (Ok(fs), Filter(Packet(k, t)))
  }

  /** `a.inject([]) { |a2, d| a2 + filter.decode(d) }`: every element through
      one filter, in order, threading its state; the first error stops it. */
  function FlatMap(e: Entry, xs: seq<Bytes>): (r: (Result<seq<Bytes>>, Entry))
    decreases |xs|
  {
    if xs == [] then (Ok([]), e)
    else
      var (r1, e1) := DecodeEntry(e, xs[0]);
      if r1.Err? then (r1, e1)
      else
        var (r2, e2) := FlatMap(e1, xs[1..]);
        if r2.Err? then (r2, e2) else (Ok(r1.value + r2.value), e2)
  }

  /** Flat-mapping a concatenation is flat-mapping the parts one after the
      other: earlier elements are decoded first, and their output comes
      first. */
  lemma {:induction false} FlatMapAppend(e: Entry, xs: seq<Bytes>, ys: seq<Bytes>)
    ensures var (r1, e1) := FlatMap(e, xs);
            var (r2, e2) := FlatMap(e1, ys);
            FlatMap(e, xs + ys) ==
              if r1.Err? then (r1, e1)
              else if r2.Err? then (r2, e2)
              else (Ok(r1.value + r2.value), e2)
    decreases |xs|
  {
    if xs == [] {
      assert xs + ys == ys;
      var (r2, e2) := FlatMap(e, ys);
      if r2.Ok? {
        assert [] + r2.value == r2.value;
      }
    } else {
      assert (xs + ys)[0] == xs[0] && (xs + ys)[1..] == xs[1..] + ys;
      var (d1, f1) := DecodeEntry(e, xs[0]);
      if d1.Ok? {
        FlatMapAppend(f1, xs[1..], ys);
        var (t1, g1) := FlatMap(f1, xs[1..]);
        if t1.Ok? {
          var (r2, e2) := FlatMap(g1, ys);
          if r2.Ok? {
            assert d1.value + (t1.value + r2.value) == (d1.value + t1.value) + r2.value;
          }
        }
      }
    }
  }

  /** `@filterset.inject([data]) { … }` started from the messages xs: each
      filter in order over every output of the one before.  Filters before
      the first error keep their new state. */
  function DecodeChain(fs: seq<Entry>, xs: seq<Bytes>): (r: (Result<seq<Bytes>>, seq<Entry>))
    ensures |r.1| == |fs|
    ensures fs == [] ==> r == (Ok(xs), [])
    decreases |fs|
  {
    if fs == [] then (Ok(xs), [])
    else
      var (r1, f0) := FlatMap(fs[0], xs);
      if r1.Err? then (r1, [f0] + fs[1..])
      else
        var (r2, rest) := DecodeChain(fs[1..], r1.value);
        (r2, [f0] + rest)
  }

  /** `entry.encode(*m)`: one byte string, or the error raised. */
  function EncodeEntry(e: Entry, m: seq<Bytes>): (r: Result<Bytes>)
    ensures e.Filter? && e.codec.Line? ==> r == Ok(LineCodec.Encode(m, e.codec.delimiter))
    ensures e.Filter? && e.codec.Packet? ==> r == PacketCodec.EncodeFrames(e.codec.size, m)
    ensures e.NotAFilter? ==> r.Err?
  {
    match e
    case NotAFilter(c) => Err(NoMethodError("undefined method `encode' for " + c))
    case Filter(Line(_, dl, _)) => Ok(LineCodec.Encode(m, dl))
    case Filter(Packet(k, _)) => PacketCodec.EncodeFrames(k, m)
  }

  /** `@filterset.reverse.inject(message) { |m, filter| filter.encode(*m) }`:
      the last filter encodes first, the first filter last. */
  function EncodeChain(fs: seq<Entry>, m: seq<Bytes>): (r: Result<seq<Bytes>>)
    ensures fs == [] ==> r == Ok(m)
    ensures fs != [] && r.Ok? ==> |r.value| == 1
    decreases |fs|
  {
    if fs == [] then Ok(m)
    else
      var inner :- EncodeChain(fs[1..], m);
      var w :- EncodeEntry(fs[0], inner);
      Ok([w])
  }

  function Reverse<T>(s: seq<T>): (r: seq<T>)
    ensures |r| == |s|
  {
    if s == [] then [] else Reverse(s[1..]) + [s[0]]
  }

  /** A literal left fold (`inject`) of `encode` over a list of filters. */
  function EncodeFold(fs: seq<Entry>, m: Result<seq<Bytes>>): Result<seq<Bytes>>
    decreases |fs|
  {
    if fs == [] then m
    else match m
      case Err(e) => Err(e)
      case Ok(v) =>
        EncodeFold(fs[1..], match EncodeEntry(fs[0], v) case Ok(w) => Ok([w]) case Err(e) => Err(e))
  }

  /** A left fold over s + [x] is the fold over s followed by one more step. */
  lemma {:induction false} EncodeFoldSnoc(s: seq<Entry>, x: Entry, m: Result<seq<Bytes>>)
    ensures EncodeFold(s + [x], m) ==
            match EncodeFold(s, m)
            case Err(e) => Err(e)
            case Ok(v) => match EncodeEntry(x, v) case Ok(w) => Ok([w]) case Err(e) => Err(e)
    decreases |s|
  {
    if s == [] {
      assert s + [x] == [x];
    } else {
      assert (s + [x])[0] == s[0] && (s + [x])[1..] == s[1..] + [x];
      if m.Ok? {
        EncodeFoldSnoc(s[1..], x, match EncodeEntry(s[0], m.value) case Ok(w) => Ok([w]) case Err(e) => Err(e));
      }
    }
  }

  /** The recursive EncodeChain is exactly the source's fold over the
      reversed filter set. */
  lemma {:induction false} EncodeChainIsReverseFold(fs: seq<Entry>, m: seq<Bytes>)
    ensures EncodeChain(fs, m) == EncodeFold(Reverse(fs), Ok(m))
    decreases |fs|
  {
    if fs != [] {
      EncodeChainIsReverseFold(fs[1..], m);
      EncodeFoldSnoc(Reverse(fs[1..]), fs[0], Ok(m));
    }
  }

  /** One layer decodes what it encoded: from its state, `entry.decode` of
      `entry.encode(*v)` gives back v. */
  predicate LayerRoundTrips(e: Entry, v: seq<Bytes>) {
    EncodeEntry(e, v).Ok? && DecodeEntry(e, EncodeEntry(e, v).value).0 == Ok(v)
  }

  /** Every layer of the chain round-trips the message it is handed on the
      way out. */
  predicate Layered(fs: seq<Entry>, m: seq<Bytes>)
    decreases |fs|
  {
    fs == [] ||
    (EncodeChain(fs[1..], m).Ok? && LayerRoundTrips(fs[0], EncodeChain(fs[1..], m).value) &&
     Layered(fs[1..], m))
  }

  /** The chain round trip: when every layer round-trips its own input,
      decoding the chain's encoding of m gives back m. */
  lemma {:induction false} ChainRoundTrip(fs: seq<Entry>, m: seq<Bytes>)
    requires Layered(fs, m)
    ensures EncodeChain(fs, m).Ok?
    ensures DecodeChain(fs, EncodeChain(fs, m).value).0 == Ok(m)
    decreases |fs|
  {
    if fs != [] {
      ChainRoundTrip(fs[1..], m);
      var v := EncodeChain(fs[1..], m).value;
      var w := EncodeEntry(fs[0], v).value;
      assert EncodeChain(fs, m) == Ok([w]);
      var (r1, f1) := DecodeEntry(fs[0], w);
      assert r1 == Ok(v);
      assert FlatMap(f1, []) == (Ok([]), f1);
      assert [w][1..] == [];
      assert v + [] == v;
      assert FlatMap(fs[0], [w]).0 == Ok(v);
    }
  }

  /** A fresh Line filter round-trips every non-empty list of lines that
      contain no delimiter, end in no CR or LF, and whose first line fits
      the limit. */
  lemma LineLayerRoundTrips(dl: byte, lim: nat, v: seq<Bytes>)
    requires v != [] && |v[0]| <= lim
    requires forall i :: 0 <= i < |v| ==> dl !in v[i] && LineCodec.Chomp(v[i]) == v[i]
    ensures LayerRoundTrips(Filter(Line([], dl, lim)), v)
  {
    LineCodec.DecodeEncode(v, dl, lim);
    var dec := LineCodec.Decoded(v, []);
    assert dec.Lines() == v;
  }

  /** A fresh Packet filter round-trips every list of payloads that fit
      its prefix. */
  lemma PacketLayerRoundTrips(k: PacketCodec.PrefixSize, v: seq<Bytes>)
    requires forall i :: 0 <= i < |v| ==> |v[i]| < PacketCodec.Limit(k)
    ensures LayerRoundTrips(Filter(Packet(k, PacketCodec.Fresh())), v)
  {
    PacketCodec.DecodeEncode(k, v);
  }

  // ---------------------------------------------------------------------
  // The sockets
  // ---------------------------------------------------------------------

  /** The active states `active=` accepts: true, false and `:once`. */
  predicate ValidActive(v: Value) {
    v == Bool(true) || v == Bool(false) || v == Atom("once")
  }

  /** Something the socket sent with `@receiver << message`. */
  datatype Delivery = Delivery(to: Actor, message: Value)

  /** What `read` does: return buffered data at once, or (the blocking
      part is not modelled) start waiting, remembering the old `@active`. */
  datatype ReadStart = Immediate(data: Bytes) | Waiting(saved: Value)

  class Socket {
    const family: Family
    var active: Value
    var controller: Actor
    var receiver: Actor
    var readBuffer: Bytes
    var enabled: bool
    var filterset: seq<Entry>
    var outbox: seq<Delivery>

    /** `[:tcp, self, data]` / `[:unix, self, data]`. */
    function Message(data: Bytes): Value {
      Arr([Atom(Tag(family)), Ref(this), Str(data)])
    }

    /** The deliveries of `msgs.each { |msg| @receiver << T[tag, self, msg] }`. */
    function Deliveries(to: Actor, msgs: seq<Bytes>): (r: seq<Delivery>)
      ensures |r| == |msgs|
      ensures forall i :: 0 <= i < |msgs| ==> r[i] == Delivery(to, Message(msgs[i]))
    {
      seq(|msgs|, i requires 0 <= i < |msgs| => Delivery(to, Message(msgs[i])))
    }

    constructor(family: Family, active: Value, controller: Actor, filterset: seq<Entry>)
      ensures this.family == family && this.active == active && this.controller == controller
      ensures receiver == controller && readBuffer == [] && !enabled
      ensures this.filterset == filterset && outbox == []
    {
      this.family := family;
      this.active := active;
      this.controller := controller;
      receiver := controller;
      readBuffer := [];
      enabled := false;
      this.filterset := filterset;
      outbox := [];
    }

    /** `Socket.new(socket, options)`: `@active` is the `:active` option when
        truthy, else false; the controller defaults to the current actor;
        the filter option is set up, and its error raised. */
    static method New(family: Family, activeOpt: Value, controllerOpt: Option<Actor>,
                      filter: FilterSpec, current: Actor) returns (r: Result<Socket>)
      ensures InitializeFilter(filter).Err? ==> r == Err(InitializeFilter(filter).error)
      ensures InitializeFilter(filter).Ok? ==>
                r.Ok? && fresh(r.value) && r.value.family == family &&
                r.value.active == (if Truthy(activeOpt) then activeOpt else Bool(false)) &&
                r.value.controller == controllerOpt.GetOr(current) &&
                r.value.receiver == r.value.controller &&
                r.value.readBuffer == [] && r.value.outbox == [] &&
                r.value.filterset == Filterset(InitializeFilter(filter).value)
    {
      var built := InitializeFilter(filter);
      if built.Err? {
        return Err(built.error);
      }
      var active := if Truthy(activeOpt) then activeOpt else Bool(false);
      var s := new Socket(family, active, controllerOpt.GetOr(current), Filterset(built.value));
      r := Ok(s);
    }

    /** `active=(state)`. */
    method SetActive(state: Value) returns (r: Result<()>)
      modifies this
      ensures old(receiver) != old(controller) ==>
                r == Err(RuntimeError("cannot change active state during a synchronous call")) &&
                unchanged(this)
      ensures old(receiver) == old(controller) && !ValidActive(state) ==>
                r == Err(ArgumentError("must be true, false, or :once")) && unchanged(this)
      ensures old(receiver) == old(controller) && ValidActive(state) ==> r == Ok(())
      // True or :once with buffered data: the buffer goes to the receiver.
      ensures old(receiver) == old(controller) && (state == Bool(true) || state == Atom("once")) &&
              old(readBuffer) != [] ==>
                outbox == old(outbox) + [Delivery(old(receiver), Message(old(readBuffer)))] &&
                readBuffer == []
      // :once that delivered returns early: active and the watcher untouched.
      ensures old(receiver) == old(controller) && state == Atom("once") && old(readBuffer) != [] ==>
                active == old(active) && enabled == old(enabled)
      // Otherwise the state is stored, and true or :once enable the watcher.
      ensures old(receiver) == old(controller) && ValidActive(state) &&
              !(state == Atom("once") && old(readBuffer) != []) ==>
                active == state && (state != Bool(false) ==> enabled) &&
                (state == Bool(false) ==> enabled == old(enabled))
      ensures old(receiver) == old(controller) && ValidActive(state) &&
              (state == Bool(false) || old(readBuffer) == []) ==>
                outbox == old(outbox) && readBuffer == old(readBuffer)
      ensures controller == old(controller) && receiver == old(receiver)
      ensures filterset == old(filterset)
    {
      if receiver != controller {
        return Err(RuntimeError("cannot change active state during a synchronous call"));
      }
      if !ValidActive(state) {
        return Err(ArgumentError("must be true, false, or :once"));
      }
      if state == Bool(true) || state == Atom("once") {
        if readBuffer != [] {
          outbox := outbox + [Delivery(receiver, Message(readBuffer))];
          readBuffer := [];
          if state == Atom("once") {
            return Ok(());
          }
        }
        enabled := true;
      }
      active := state;
      r := Ok(());
    }

    /** `controller=(controller)`: only actors; the receiver follows the
        controller unless a synchronous call has taken it over. */
    method SetController(candidate: object) returns (r: Result<()>)
      modifies this
      ensures !(candidate is Actor) ==>
                r == Err(ArgumentError("controller must be an actor")) && unchanged(this)
      ensures candidate is Actor ==>
                r == Ok(()) && controller == candidate as Actor &&
                receiver == (if old(receiver) == old(controller) then candidate as Actor else old(receiver)) &&
                active == old(active) && readBuffer == old(readBuffer) && enabled == old(enabled) &&
                filterset == old(filterset) && outbox == old(outbox)
    {
      if !(candidate is Actor) {
        return Err(ArgumentError("controller must be an actor"));
      }
      if receiver == controller {
        receiver := candidate as Actor;
      }
      controller := candidate as Actor;
      r := Ok(());
    }

    /** `read(length = nil)` up to its blocking receive: buffered data is
        returned at once when there is some and, if a length is given, at
        least that much; otherwise the socket is switched to `:once` for the
        current actor and the caller waits. */
    method Read(length: Option<nat>, current: Actor) returns (r: Result<ReadStart>)
      modifies this
      ensures old(receiver) != old(controller) ==>
                r == Err(RuntimeError("already being called synchronously")) && unchanged(this)
      ensures old(receiver) == old(controller) && old(readBuffer) != [] &&
              (length.None? || |old(readBuffer)| >= length.value) ==>
                var n := if length.Some? then length.value else |old(readBuffer)|;
                r == Ok(Immediate(old(readBuffer)[..n])) && readBuffer == old(readBuffer)[n..] &&
                active == old(active) && receiver == old(receiver) && enabled == old(enabled)
      ensures old(receiver) == old(controller) &&
              (old(readBuffer) == [] || (length.Some? && |old(readBuffer)| < length.value)) ==>
                r == Ok(Waiting(old(active))) && active == Atom("once") && receiver == current &&
                enabled && readBuffer == old(readBuffer)
      ensures controller == old(controller) && filterset == old(filterset) && outbox == old(outbox)
    {
      if receiver != controller {
        return Err(RuntimeError("already being called synchronously"));
      }
      if !(readBuffer == [] || (length.Some? && |readBuffer| < length.value)) {
        var n := if length.Some? then length.value else |readBuffer|;
        var data := readBuffer[..n];
        readBuffer := readBuffer[n..];
        return Ok(Immediate(data));
      }
      var saved := active;
      active := Atom("once");
      receiver := current;
      enabled := true;
      r := Ok(Waiting(saved));
    }

    /** `msgs.each { |msg| @receiver << T[tag, self, msg] }`. */
    method Deliver(msgs: seq<Bytes>)
      modifies this`outbox
      ensures outbox == old(outbox) + Deliveries(receiver, msgs)
    {
      ghost var before := outbox;
      for i := 0 to |msgs|
        invariant outbox == before + Deliveries(receiver, msgs[..i])
      {
        outbox := outbox + [Delivery(receiver, Message(msgs[i]))];
        assert msgs[..i + 1] == msgs[..i] + [msgs[i]];
      }
      assert msgs[..|msgs|] == msgs;
    }

    /** `on_read(data)`: the data goes through the filter chain; each
        decoded message is sent to the receiver in order, and `:once`
        then turns into false.  Nothing decoded: nothing sent, nothing
        else changes.  A filter error propagates, with the filters that
        ran before it keeping their new state. */
    method OnRead(data: Bytes) returns (r: Result<()>)
      modifies this
      ensures var (res, fs) := DecodeChain(old(filterset), [data]);
              filterset == fs &&
              (res.Err? ==> r == Err(res.error) && outbox == old(outbox) && active == old(active) &&
                             enabled == old(enabled)) &&
              (res.Ok? && res.value == [] ==>
                 r == Ok(()) && outbox == old(outbox) && active == old(active) && enabled == old(enabled)) &&
              (res.Ok? && res.value != [] ==>
                 r == Ok(()) && outbox == old(outbox) + Deliveries(old(receiver), res.value) &&
                 (old(active) == Atom("once") ==> active == Bool(false) && !enabled) &&
                 (old(active) != Atom("once") ==> active == old(active) && enabled == old(enabled)))
      ensures receiver == old(receiver) && controller == old(controller) && readBuffer == old(readBuffer)
    {
      var decoded := DecodeChain(filterset, [data]);
      filterset := decoded.1;
      if decoded.0.Err? {
        return Err(decoded.0.error);
      }
      var msgs := decoded.0.value;
      if msgs == [] {
        return Ok(());
      }
      Deliver(msgs);
      if active == Atom("once") {
        active := Bool(false);
        enabled := false;
      }
      r := Ok(());
    }
  }

  class Listener {
    const family: Family
    var active: Value
    var controller: Actor
    const filter: FilterSpec
    var accepting: bool
    var receiver: Option<Actor>
    var enabled: bool

    /** `Listener.new(..., options)`: `:active` defaults to false and
        `:controller` to the current actor; the filter option is kept as
        given for the sockets it accepts. */
    constructor(family: Family, activeOpt: Option<Value>, controllerOpt: Option<Actor>,
                filter: FilterSpec, current: Actor)
      ensures this.family == family && active == activeOpt.GetOr(Bool(false))
      ensures controller == controllerOpt.GetOr(current) && this.filter == filter
      ensures !accepting && receiver == None && !enabled
    {
      this.family := family;
      active := activeOpt.GetOr(Bool(false));
      controller := controllerOpt.GetOr(current);
      this.filter := filter;
      accepting := false;
      receiver := None;
      enabled := false;
    }

    /** `active=(state)`: the default for accepted sockets; only true,
        false or `:once`. */
    method SetActive(state: Value) returns (r: Result<()>)
      modifies this
      ensures !ValidActive(state) ==>
                r == Err(ArgumentError("must be true, false, or :once")) && unchanged(this)
      ensures ValidActive(state) ==>
                r == Ok(()) && active == state && controller == old(controller) &&
                accepting == old(accepting) && receiver == old(receiver) && enabled == old(enabled)
    {
      if !ValidActive(state) {
        return Err(ArgumentError("must be true, false, or :once"));
      }
      active := state;
      r := Ok(());
    }

    /** `controller=(controller)`: only actors. */
    method SetController(candidate: object) returns (r: Result<()>)
      modifies this
      ensures !(candidate is Actor) ==>
                r == Err(ArgumentError("controller must be an actor")) && unchanged(this)
      ensures candidate is Actor ==>
                r == Ok(()) && controller == candidate as Actor && active == old(active) &&
                accepting == old(accepting) && receiver == old(receiver) && enabled == old(enabled)
    {
      if !(candidate is Actor) {
        return Err(ArgumentError("controller must be an actor"));
      }
      controller := candidate as Actor;
      r := Ok(());
    }

    /** `accept` up to its blocking receive: one accepting actor at a time;
        the caller becomes the receiver and the listener is enabled. */
    method Accept(current: Actor) returns (r: Result<()>)
      modifies this
      ensures old(accepting) ==>
                r == Err(RuntimeError("another actor is already accepting")) && unchanged(this)
      ensures !old(accepting) ==>
                r == Ok(()) && accepting && receiver == Some(current) && enabled &&
                active == old(active) && controller == old(controller)
    {
      if accepting {
        return Err(RuntimeError("another actor is already accepting"));
      }
      accepting := true;
      receiver := Some(current);
      enabled := true;
      r := Ok(());
    }
  }
}
