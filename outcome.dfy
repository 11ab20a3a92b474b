/** Outcomes of the decoder's operations.

    The Rust code has two ways of failing: an error value propagated with `?`
    (the variants of `MyError` in src/page.rs) and a panic (`unwrap` on a failed
    conversion, `panic!`, `unreachable!`, an index or a slice out of range, an
    integer subtraction below zero).  One decoding loop can also run forever.
    Each of these is a distinct outcome here, so that a contract can say which
    one an input leads to. */
module Outcomes {

  /** The `MyError` variants that `?` propagates. */
  datatype Error = Io | Offset | Utf8 | Slice

  /** Why the Rust program would panic. */
  datatype PanicReason =
    | Unwrap       // `unwrap()` of an `Err` or a failed `try_into`
    | Explicit     // `panic!` or `unreachable!`
    | OutOfRange   // indexing or slicing outside a buffer
    | Overflow     // an unsigned subtraction below zero

  datatype Option<+T> = None | Some(value: T)

  datatype Outcome<+T> =
    | Ok(value: T)
    | Err(error: Error)
    | Panic(reason: PanicReason)
    | Diverge      // the computation never returns

  {
    predicate IsFailure() {
      !Ok?
    }

    function PropagateFailure<U>(): (r: Outcome<U>)
      requires !Ok?
      ensures !r.Ok?
    {
      match this
      case Err(e) => Err(e)
      case Panic(p) => Panic(p)
      case Diverge => Diverge
    }

    function Extract(): T
      requires Ok?
    {
      value
    }
  }

  /** `result.unwrap()`: an error value becomes a panic. */
  function Unwrapped<T>(o: Outcome<T>): (r: Outcome<T>)
    ensures r.Ok? <==> o.Ok?
    ensures o.Ok? ==> r == o
    ensures o.Err? ==> r == Panic(Unwrap)
  {
    match o
    case Err(_) => Panic(Unwrap)
    case _ => o
  }

  /** `read` applied to each pointer in order, as the cell loops do: the
      first failure ends the run and is its outcome. */
  function ReadEach<T>(read: nat -> Outcome<T>, pointers: seq<nat>): (r: Outcome<seq<T>>)
    ensures r.Ok? ==> |r.value| == |pointers|
  {
    if pointers == [] then Ok([])
    else
      var init :- ReadEach(read, pointers[..|pointers| - 1]);
      var item :- read(pointers[|pointers| - 1]);
      Ok(init + [item])
  }

  /** Item i of a successful run is what `read` gives for pointer i. */
  lemma {:induction false} ReadEachAt<T>(read: nat -> Outcome<T>, pointers: seq<nat>)
    requires ReadEach(read, pointers).Ok?
    ensures forall i :: 0 <= i < |pointers| ==> read(pointers[i]) == Ok(ReadEach(read, pointers).value[i])
    decreases |pointers|
  {
    if pointers != [] {
      ReadEachAt(read, pointers[..|pointers| - 1]);
    }
  }

  /** A failure among the first `n` pointers is the failure of the run. */
  lemma {:induction false} ReadEachPrefix<T>(read: nat -> Outcome<T>, pointers: seq<nat>, n: nat)
    requires n <= |pointers|
    requires !ReadEach(read, pointers[..n]).Ok?
    ensures ReadEach(read, pointers) == ReadEach(read, pointers[..n])
    decreases |pointers| - n
  {
    if n < |pointers| {
      assert pointers[..n + 1][..n] == pointers[..n];
      ReadEachPrefix(read, pointers, n + 1);
    } else {
      assert pointers[..n] == pointers;
    }
  }

  /** A run over a read that never gives an error value gives none either. */
  lemma {:induction false} ReadEachNeverErr<T>(read: nat -> Outcome<T>, pointers: seq<nat>)
    requires forall p :: !read(p).Err?
    ensures !ReadEach(read, pointers).Err?
    decreases |pointers|
  {
    if pointers != [] {
      ReadEachNeverErr(read, pointers[..|pointers| - 1]);
    }
  }
}
