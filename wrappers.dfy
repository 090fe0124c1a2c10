/** Option and Result datatypes shared by every module, plus small sequence helpers.
    A `Result` carries the message of the error the source throws or passes to its callback. */
module Wrappers {

  datatype Option<+T> = None | Some(value: T)

  datatype Result<+T> = Ok(value: T) | Err(msg: string) {
    predicate IsFailure() { Err? }

    function PropagateFailure<U>(): Result<U>
      requires Err?
    {
      Err(msg)
    }

    function Extract(): T
      requires Ok?
    {
      value
    }
  }

  /** Concatenation of a list of strings (JavaScript `list.join('')`). */
  function Concat(ss: seq<string>): string
  {
    if ss == [] then "" else ss[0] + Concat(ss[1..])
  }

  lemma ConcatCons(s: string, ss: seq<string>)
    ensures Concat([s] + ss) == s + Concat(ss)
  {
    assert ([s] + ss)[1..] == ss;
  }

  lemma ConcatAppend(ss: seq<string>, s: string)
    ensures Concat(ss + [s]) == Concat(ss) + s
  {
    if ss != [] {
      assert (ss + [s])[1..] == ss[1..] + [s];
      ConcatAppend(ss[1..], s);
    }
  }

  /** Each string of the list is no longer than their concatenation. */
  lemma {:induction false} ConcatBound(ss: seq<string>)
    ensures forall i :: 0 <= i < |ss| ==> |ss[i]| <= |Concat(ss)|
  {
    if ss != [] {
      ConcatBound(ss[1..]);
      assert forall i :: 1 <= i < |ss| ==> ss[i] == ss[1..][i - 1];
    }
  }

  /** Total length of a list of strings. */
  function TotalLength(ss: seq<string>): nat
  {
    if ss == [] then 0 else |ss[0]| + TotalLength(ss[1..])
  }

  lemma ConcatLength(ss: seq<string>)
    ensures |Concat(ss)| == TotalLength(ss)
  {
    if ss != [] { ConcatLength(ss[1..]); }
  }

  /** `sep`-joined strings (JavaScript `list.join(sep)`). */
  function Join(ss: seq<string>, sep: string): string
  {
    if ss == [] then "" else if |ss| == 1 then ss[0] else ss[0] + sep + Join(ss[1..], sep)
  }

  /** The substring test of JavaScript's `String.prototype.includes`. */
  predicate IsInfix(needle: string, hay: string)
  {
    needle <= hay || (|hay| > 0 && IsInfix(needle, hay[1..]))
  }
}
