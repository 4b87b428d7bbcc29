/** Small string and value helpers shared by the editor adapter and the
    controller: optional values, ASCII lower-casing, the JavaScript
    `substring` rules and the last segment of a `/`-separated path. */
module Text {

  /** A value that may be absent (`undefined` in the adapter's terms). */
  datatype Option<+T> = None | Some(value: T)

  /** The outcome of an operation that can fault (a JavaScript `TypeError`). */
  datatype Result<+T> = Ok(value: T) | Fault(message: string)

  function LowerChar(c: char): char
  {
    if 'A' <= c <= 'Z' then (c as int + 32) as char else c
  }

  /** `String.prototype.toLowerCase`, restricted to ASCII letters. */
  function ToLower(s: string): (r: string)
    ensures |r| == |s|
    ensures forall i :: 0 <= i < |s| ==> r[i] == LowerChar(s[i])
    ensures forall i :: 0 <= i < |s| ==> !('A' <= r[i] <= 'Z')
  {
    seq(|s|, i requires 0 <= i < |s| => LowerChar(s[i]))
  }

  /** Lower-casing twice is lower-casing once: the key a table stores is
      already its own normal form. */
  lemma ToLowerIdempotent(s: string)
    ensures ToLower(ToLower(s)) == ToLower(s)
  {
    var t := ToLower(s);
    assert forall i :: 0 <= i < |t| ==> LowerChar(t[i]) == t[i];
  }

  /** Text without upper-case ASCII letters is its own lower case. */
  lemma LowerCaseUnchanged(s: string)
    requires forall i :: 0 <= i < |s| ==> !('A' <= s[i] <= 'Z')
    ensures ToLower(s) == s
  {
  }

  function Min(a: int, b: int): int
  {
    if a <= b then a else b
  }

  function Max(a: int, b: int): int
  {
    if a <= b then b else a
  }

  /** `x` brought into `[0, n]`. */
  function Clamp(x: int, n: nat): (c: nat)
    ensures c <= n
    ensures 0 <= x <= n ==> c == x
  {
    if x < 0 then 0 else if x > n then n else x
  }

  /** `String.prototype.substring(a, b)` for integer arguments: both ends are
      clamped into `[0, |s|]` and swapped when the first exceeds the second.
      Swapping first and clamping after gives the same slice. */
  function Substring(s: string, a: int, b: int): (r: string)
    ensures r == s[Clamp(Min(a, b), |s|)..Clamp(Max(a, b), |s|)]
    ensures 0 <= a <= b <= |s| ==> r == s[a..b]
    ensures 0 <= b <= a <= |s| ==> r == s[b..a]
    ensures |r| <= |s|
    ensures (a <= 0 && b <= 0) || (a >= |s| && b >= |s|) ==> r == ""
  {
    var lo := if a < 0 then 0 else if a > |s| then |s| else a;
    var hi := if b < 0 then 0 else if b > |s| then |s| else b;
    if lo <= hi then s[lo..hi] else s[hi..lo]
  }

  /** The last element of `s.split('/')`: the text after the final `/`, or
      all of `s` when it holds none. */
  function LastSegment(s: string): (r: string)
    ensures '/' !in r
    ensures |r| <= |s| && r == s[|s| - |r|..]
    ensures |r| < |s| ==> s[|s| - |r| - 1] == '/'
  {
    if |s| == 0 then ""
    else if s[|s| - 1] == '/' then ""
    else
      var r := LastSegment(s[..|s| - 1]) + [s[|s| - 1]];
      assert s[..|s| - 1][|s| - 1 - (|r| - 1)..] + [s[|s| - 1]] == s[|s| - |r|..];
      r
  }

  /** A label with no `/` is its own last segment, and a path's last segment
      is the text after its last `/`. */
  lemma {:induction false} LastSegmentOfPath(a: string, b: string)
    requires '/' !in b
    ensures LastSegment(b) == b
    ensures LastSegment(a + "/" + b) == b
  {
    var s := a + "/" + b;
    if |b| == 0 {
      assert s[|s| - 1] == '/';
    } else {
      var b' := b[..|b| - 1];
      var c := b[|b| - 1];
      assert c != '/' by { assert c in b; }
      assert s[..|s| - 1] == a + "/" + b';
      assert s[|s| - 1] == c;
      assert b[..|b| - 1] == b';
      LastSegmentOfPath(a, b');
      assert LastSegment(s) == LastSegment(a + "/" + b') + [c];
      assert LastSegment(b) == LastSegment(b') + [c];
      assert b' + [c] == b;
    }
  }
}
