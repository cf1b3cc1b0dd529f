/** The JavaScript built-ins the widget relies on, apart from `Array.prototype.find`
    (each of whose uses is modelled beside the predicate it searches with):
    `indexOf`, `String.prototype.startsWith` and `toLowerCase`, over Dafny
    sequences and strings. */
module JsBuiltins {

  /** What a JavaScript lookup yields: an element, or `undefined` when nothing matched. */
  datatype Maybe<+T> = Undefined | Defined(value: T)

  /** `s.indexOf(x)`: the first position holding `x` (compared with `===`), or -1;
      `undefined` is held by no array here. */
  function IndexOf<T(==)>(s: seq<T>, x: Maybe<T>): (r: int)
    ensures r >= 0 ==> r < |s| && x == Defined(s[r])
  {
    if x.Undefined? then -1 else IndexFromSpec(s, x.value, 0); IndexFrom(s, x.value, 0)
  }

  /** `indexOf` finds the first occurrence, and -1 only for `undefined` or a
      value the array does not hold. */
  lemma IndexOfFindsFirst<T>(s: seq<T>, x: Maybe<T>)
    ensures -1 <= IndexOf(s, x) < |s|
    ensures IndexOf(s, x) >= 0 ==> x == Defined(s[IndexOf(s, x)]) && forall j :: 0 <= j < IndexOf(s, x) ==> s[j] != s[IndexOf(s, x)]
    ensures IndexOf(s, x) == -1 <==> x.Undefined? || x.value !in s
  {
    if x.Defined? {
      IndexFromSpec(s, x.value, 0);
    }
  }

  /** The scan behind `indexOf`, from position `i` on. */
  function IndexFrom<T(==)>(s: seq<T>, x: T, i: nat): int
    requires i <= |s|
    decreases |s| - i
  {
    if i == |s| then -1 else if s[i] == x then i else IndexFrom(s, x, i + 1)
  }

  /** What the scan from position `i` finds: the first hit at or after `i`, or -1. */
  lemma {:induction false} IndexFromSpec<T>(s: seq<T>, x: T, i: nat)
    requires i <= |s|
    decreases |s| - i
    ensures var r := IndexFrom(s, x, i);
      (r == -1 || i <= r < |s|) &&
      (r >= 0 ==> s[r] == x && forall j :: i <= j < r ==> s[j] != x) &&
      (r == -1 ==> forall j :: i <= j < |s| ==> s[j] != x)
  {
    if i < |s| && s[i] != x {
      IndexFromSpec(s, x, i + 1);
    }
  }

  predicate IsUpperAscii(c: char) {
    'A' <= c <= 'Z'
  }

  /** Lower-casing of one character, restricted to the ASCII letters. */
  function LowerChar(c: char): (r: char)
    ensures !IsUpperAscii(r)
    ensures !IsUpperAscii(c) ==> r == c
    ensures IsUpperAscii(c) ==> r as int == c as int + 32
  {
    if IsUpperAscii(c) then (c as int + 32) as char else c
  }

  /** `s.toLowerCase()`, with ASCII case folding only. */
  function LowerCase(s: string): (r: string)
    ensures |r| == |s|
    ensures forall i :: 0 <= i < |s| ==> r[i] == LowerChar(s[i])
  {
    if s == [] then [] else [LowerChar(s[0])] + LowerCase(s[1..])
  }

  /** `s.startsWith(prefix)`. */
  function StartsWith(s: string, prefix: string): (r: bool)
    ensures r <==> |prefix| <= |s| && forall i :: 0 <= i < |prefix| ==> s[i] == prefix[i]
  {
    |prefix| <= |s| && s[..|prefix|] == prefix
  }
}
