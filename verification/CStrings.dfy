/** C strings and the order that `strcmp` gives them. */
module CStrings {
  /** The characters of a C string are the bytes 1 to 255. */
  type CString = s: string | forall i :: 0 <= i < |s| ==> 0 < s[i] as int < 256

  /** The sign of `strcmp`, which compares the first differing bytes as unsigned numbers. */
  function StrCmp(a: string, b: string): int {
    if a == [] && b == [] then 0
    else if a == [] then -1
    else if b == [] then 1
    else if a[0] == b[0] then StrCmp(a[1..], b[1..])
    else a[0] as int - b[0] as int
  }

  lemma {:induction false} StrCmpEqual(a: string, b: string)
    ensures StrCmp(a, b) == 0 <==> a == b
  {
    if a != [] && b != [] {
      StrCmpEqual(a[1..], b[1..]);
      assert a == [a[0]] + a[1..] && b == [b[0]] + b[1..];
    }
  }

  /** The first place where the strings differ decides, by the bytes as unsigned numbers; a proper prefix is less. */
  lemma {:induction false} StrCmpDecides(a: string, b: string, i: nat)
    requires i <= |a| && i <= |b| && a[..i] == b[..i]
    ensures i < |a| && i < |b| && a[i] != b[i] ==> (StrCmp(a, b) < 0 <==> a[i] as int < b[i] as int)
    ensures i == |a| < |b| ==> StrCmp(a, b) < 0
    decreases i
  {
    if i > 0 {
      assert a[0] == a[..i][0] == b[..i][0] == b[0];
      assert a[1..][..i - 1] == a[..i][1..] == b[..i][1..] == b[1..][..i - 1];
      StrCmpDecides(a[1..], b[1..], i - 1);
    }
  }

  lemma {:induction false} StrCmpSwap(a: string, b: string)
    ensures StrCmp(a, b) < 0 <==> StrCmp(b, a) > 0
  {
    if a != [] && b != [] {
      StrCmpSwap(a[1..], b[1..]);
    }
  }

  lemma {:induction false} StrCmpTransitive(a: string, b: string, c: string)
    requires StrCmp(a, b) < 0 && StrCmp(b, c) < 0
    ensures StrCmp(a, c) < 0
  {
    if a != [] && b != [] && c != [] {
      if a[0] == b[0] == c[0] {
        StrCmpTransitive(a[1..], b[1..], c[1..]);
      }
    }
  }
}
