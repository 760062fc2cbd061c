/** Shared vocabulary: optional and failing results, bytes, and the two ways a
    delimiter splits a sequence uniquely. */
module Common {

  datatype Option<+T> = None | Some(value: T)

  datatype Result<+T, +E> = Ok(value: T) | Err(error: E)

  type byte = b: int | 0 <= b < 256

  type bytes = seq<byte>

  /** A delimiter that occurs in neither head splits a sequence at its first occurrence. */
  lemma SplitFirst<T>(a: seq<T>, x: seq<T>, b: seq<T>, y: seq<T>, d: T)
    requires d !in a && d !in b
    requires a + [d] + x == b + [d] + y
    ensures a == b && x == y
  {
    var s, t := a + [d] + x, b + [d] + y;
    assert s[|a|] == d && t[|b|] == d;
    assert |a| == |b|;
    assert a == s[..|a|] && b == t[..|b|];
    assert x == s[|a| + 1..] && y == t[|b| + 1..];
  }

  /** A delimiter that occurs in neither tail splits a sequence at its last occurrence. */
  lemma SplitLast<T>(a: seq<T>, x: seq<T>, b: seq<T>, y: seq<T>, d: T)
    requires d !in x && d !in y
    requires a + [d] + x == b + [d] + y
    ensures a == b && x == y
  {
    var s, t := a + [d] + x, b + [d] + y;
    assert s[|a|] == d && t[|b|] == d;
    assert |a| == |b|;
    assert a == s[..|a|] && b == t[..|b|];
    assert x == s[|a| + 1..] && y == t[|b| + 1..];
  }

  /** Equal concatenations with equal first halves have equal second halves, and conversely. */
  lemma SplitAt<T>(a: seq<T>, x: seq<T>, b: seq<T>, y: seq<T>)
    requires a + x == b + y && (|a| == |b| || |x| == |y|)
    ensures a == b && x == y
  {
    assert a == (a + x)[..|a|] && x == (a + x)[|a|..];
    assert b == (b + y)[..|b|] && y == (b + y)[|b|..];
  }

  /** A stretch of a sequence, appended in two steps. */
  lemma AppendSlices<T>(pre: seq<T>, all: seq<T>, from: nat, mid: nat, upto: nat)
    requires from <= mid <= upto <= |all|
    ensures pre + all[from..upto] == pre + all[from..mid] + all[mid..upto]
  {
    assert all[from..upto] == all[from..mid] + all[mid..upto];
  }

  lemma Assoc<T>(a: seq<T>, b: seq<T>, c: seq<T>)
    ensures (a + b) + c == a + (b + c)
  {}

  function Min(a: nat, b: nat): nat { if a < b then a else b }

  function Max(a: int, b: int): int { if a < b then b else a }

  /** A dict's entries in insertion order: a repeated key keeps its place and takes the new entry. */
  function Put<T>(d: seq<T>, x: T, key: T -> string): seq<T> {
    if d == [] then [x]
    else if key(d[0]) == key(x) then [x] + d[1..]
    else [d[0]] + Put(d[1..], x, key)
  }

  /** Which calls, by number, raise. */
  type Faults = nat -> bool

  function NoFaults(): Faults { _ => false }

  function Elements(q: seq<string>): set<string> { set x | x in q }

  /** Some order of a set, as iteration gives it. */
  method Enumerate(s: set<string>) returns (q: seq<string>)
    ensures Elements(q) == s
    ensures forall i, j | 0 <= i < j < |q| :: q[i] != q[j]
  {
    q := [];
    var rest := s;
    while rest != {}
      invariant Elements(q) + rest == s && Elements(q) !! rest
      invariant forall i, j | 0 <= i < j < |q| :: q[i] != q[j]
      decreases rest
    {
      var x :| x in rest;
      q := q + [x];
      rest := rest - {x};
    }
  }

  /** Every two neighbours of a trace are one move apart. */
  ghost predicate Linked<S(!new)>(trace: seq<S>, moves: (S, S) -> bool) {
    forall n | 0 <= n < |trace| - 1 :: moves(trace[n], trace[n + 1])
  }

  /** A trace goes on with any move from its last state. */
  lemma LinkedSnoc<S(!new)>(trace: seq<S>, moves: (S, S) -> bool, s: S)
    requires trace != [] && Linked(trace, moves) && moves(trace[|trace| - 1], s)
    ensures Linked(trace + [s], moves)
  {
    var more := trace + [s];
    forall n | 0 <= n < |more| - 1 ensures moves(more[n], more[n + 1]) {
      if n < |trace| - 1 { assert moves(trace[n], trace[n + 1]); }
    }
  }
}
