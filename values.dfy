/** Ruby values as they travel through mailboxes, and the `===` matching
    that filter rules use (lib/revactor.rb, Tuple#===). */
module Values {

  /** The model's strings are byte strings, as socket data is (binary). */
  newtype byte = x: int | 0 <= x < 256
  type Bytes = seq<byte>

  /** A message value.  `Ref` stands for any other object (an actor, a
      socket, a listener) and compares by identity. */
  datatype Value =
    | Nil
    | Bool(b: bool)
    | Int(i: int)
    | Atom(name: string)
    | Str(bytes: Bytes)
    | Ref(obj: object)
    | Arr(elems: seq<Value>)

  /** Ruby truthiness: everything except nil and false. */
  predicate Truthy(v: Value) {
    v != Nil && v != Bool(false)
  }

  /** The built-in classes a rule may name; `Class === v` is `v.is_a?(Class)`. */
  datatype ClassName =
    | ObjectClass | NilClass | TrueClass | FalseClass
    | IntegerClass | SymbolClass | StringClass | ArrayClass

  predicate IsA(v: Value, c: ClassName) {
    match c
    case ObjectClass => true
    case NilClass => v.Nil?
    case TrueClass => v == Bool(true)
    case FalseClass => v == Bool(false)
    case IntegerClass => v.Int?
    case SymbolClass => v.Atom?
    case StringClass => v.Str?
    case ArrayClass => v.Arr?
  }

  /** A rule pattern.  `Lit` is any value whose `===` is `==` (symbols,
      strings, nil, numbers, objects, plain arrays); `Cls` a class; `Pred` a
      Regexp or Proc, whose test is opaque; `Tup` a Tuple of sub-patterns. */
  datatype Pattern =
    | Lit(v: Value)
    | Cls(c: ClassName)
    | Pred(test: Value -> bool)
    | Tup(elems: seq<Pattern>)

  /** `obj[n]` on a Ruby array: nil past the end. */
  function At(vs: seq<Value>, n: nat): Value {
    if n < |vs| then vs[n] else Nil
  }

  /** `pattern === v`. */
  function Match(p: Pattern, v: Value): bool
    decreases p, 1, 0
  {
    match p
    case Lit(x) => x == v
    case Cls(c) => IsA(v, c)
    case Pred(test) => test(v)
    case Tup(_) => v.Arr? && MatchFrom(p, v.elems, 0)
  }

  /** The `size.times { |n| return false unless self[n] === obj[n] }` loop
      of Tuple#===, from position n on, with its early return. */
  function MatchFrom(p: Pattern, vs: seq<Value>, n: nat): bool
    requires p.Tup? && n <= |p.elems|
    decreases p, 0, |p.elems| - n
  {
    if n == |p.elems| then true
    else if !Match(p.elems[n], At(vs, n)) then false
    else MatchFrom(p, vs, n + 1)
  }

  /** Every position from n on matches. */
  ghost predicate AllFrom(ps: seq<Pattern>, vs: seq<Value>, n: nat) {
    forall j :: n <= j < |ps| ==> Match(ps[j], At(vs, j))
  }

  lemma {:induction false} MatchFromAll(p: Pattern, vs: seq<Value>, n: nat)
    requires p.Tup? && n <= |p.elems|
    ensures MatchFrom(p, vs, n) <==> AllFrom(p.elems, vs, n)
    decreases |p.elems| - n
  {
    if n < |p.elems| {
      MatchFromAll(p, vs, n + 1);
    }
  }

  /** A Tuple pattern matches only Arrays. */
  lemma TupleNeedsArray(ps: seq<Pattern>, v: Value)
    requires !v.Arr?
    ensures !Match(Tup(ps), v)
  {
  }

  /** A Tuple matches an array iff every position below the pattern's size
      matches, positions past the array's end being read as nil. */
  lemma TupleMatchIff(ps: seq<Pattern>, vs: seq<Value>)
    ensures Match(Tup(ps), Arr(vs)) <==>
            forall n :: 0 <= n < |ps| ==> Match(ps[n], At(vs, n))
  {
    MatchFromAll(Tup(ps), vs, 0);
  }

  /** Matching is by prefix: elements past the pattern's size are ignored,
      as `T[:tcp, sock]` matches `[:tcp, sock, data]`. */
  lemma TuplePrefix(ps: seq<Pattern>, vs: seq<Value>, extra: seq<Value>)
    requires |ps| <= |vs|
    ensures Match(Tup(ps), Arr(vs + extra)) <==> Match(Tup(ps), Arr(vs))
  {
    TupleMatchIff(ps, vs);
    TupleMatchIff(ps, vs + extra);
    assert forall n :: 0 <= n < |ps| ==> At(vs + extra, n) == At(vs, n);
  }

  /** The empty Tuple matches every array, and nothing else. */
  lemma EmptyTupleMatchesArrays(v: Value)
    ensures Match(Tup([]), v) <==> v.Arr?
  {
  }

  function Nils(n: nat): (r: seq<Value>)
    ensures |r| == n && forall i :: 0 <= i < n ==> r[i] == Nil
  {
    if n == 0 then [] else Nils(n - 1) + [Nil]
  }

  /** A short array matches as if padded with nils up to the pattern's size. */
  lemma TupleShortPadsNil(ps: seq<Pattern>, vs: seq<Value>)
    requires |vs| < |ps|
    ensures Match(Tup(ps), Arr(vs)) <==> Match(Tup(ps), Arr(vs + Nils(|ps| - |vs|)))
  {
    var padded := vs + Nils(|ps| - |vs|);
    TupleMatchIff(ps, vs);
    TupleMatchIff(ps, padded);
    assert forall n :: 0 <= n < |ps| ==> At(padded, n) == At(vs, n);
  }

  /** So `T[Object]` matches the empty array. */
  lemma TupleObjectMatchesEmpty()
    ensures Match(Tup([Cls(ObjectClass)]), Arr([]))
  {
  }
}
