/** The few JavaScript string operations the lookup components rely on:
    `toLowerCase` (ASCII letters only), the `<` comparison of strings, and
    `Array.prototype.join(' ')` for class lists, with its inverse `Split`. */
module Strings {

  predicate IsUpper(ch: char) { 'A' <= ch <= 'Z' }

  /** `toLowerCase` on one character, restricted to ASCII. */
  function LowerChar(ch: char): (r: char)
    ensures !IsUpper(r)
    ensures IsUpper(ch) ==> 'a' <= r <= 'z' && r as int - 'a' as int == ch as int - 'A' as int
    ensures !IsUpper(ch) ==> r == ch
  {
    if IsUpper(ch) then (ch as int + 32) as char else ch
  }

  /** `s.toLowerCase()`: every character lowered, length kept. */
  function Lower(s: string): (r: string)
    ensures |r| == |s|
    ensures forall i :: 0 <= i < |s| ==> r[i] == LowerChar(s[i])
  {
    if s == [] then [] else [LowerChar(s[0])] + Lower(s[1..])
  }

  /** JavaScript `a < b` on strings: lexicographic by character code, a proper prefix is smaller. */
  predicate Below(a: string, b: string)
  {
    |b| > 0 && (|a| == 0 || a[0] < b[0] || (a[0] == b[0] && Below(a[1..], b[1..])))
  }

  lemma {:induction false} BelowIrreflexive(a: string)
    ensures !Below(a, a)
  {
    if |a| > 0 {
      BelowIrreflexive(a[1..]);
    }
  }

  lemma {:induction false} BelowTransitive(a: string, b: string, c: string)
    requires Below(a, b) && Below(b, c)
    ensures Below(a, c)
  {
    if |a| > 0 && a[0] == b[0] && b[0] == c[0] {
      BelowTransitive(a[1..], b[1..], c[1..]);
    }
  }

  lemma BelowAsymmetric(a: string, b: string)
    ensures !(Below(a, b) && Below(b, a))
  {
    if Below(a, b) && Below(b, a) {
      BelowTransitive(a, b, a);
      BelowIrreflexive(a);
    }
  }

  /** Any two strings are equal or ordered one way round. */
  lemma {:induction false} BelowTotal(a: string, b: string)
    ensures a == b || Below(a, b) || Below(b, a)
  {
    if |a| > 0 && |b| > 0 && a[0] == b[0] {
      BelowTotal(a[1..], b[1..]);
      if a[1..] == b[1..] {
        assert a == [a[0]] + a[1..] && b == [b[0]] + b[1..];
      }
    }
  }

  /** `parts.join(' ')`. */
  function Join(parts: seq<string>): string
  {
    if |parts| == 0 then ""
    else if |parts| == 1 then parts[0]
    else parts[0] + " " + Join(parts[1..])
  }

  /** Position of the first space of `s`. */
  function FirstSpace(s: string): (i: nat)
    requires ' ' in s
    ensures i < |s| && s[i] == ' ' && ' ' !in s[..i]
  {
    if s[0] == ' ' then 0
    else
      assert s == [s[0]] + s[1..];
      var k := FirstSpace(s[1..]);
      assert s[..k + 1] == [s[0]] + s[1..][..k];
      k + 1
  }

  /** `s.split(' ')`: how a class attribute is read back as a list of class names. */
  function Split(s: string): seq<string>
    decreases |s|
  {
    if ' ' in s then
      var i := FirstSpace(s);
      [s[..i]] + Split(s[i + 1..])
    else [s]
  }

  /** Joining class names that contain no space and splitting the result gives the names back,
      so a class attribute holds a name exactly when the class list does. */
  lemma {:induction false} SplitJoin(parts: seq<string>)
    requires |parts| > 0
    requires forall i :: 0 <= i < |parts| ==> ' ' !in parts[i]
    ensures Split(Join(parts)) == parts
  {
    if |parts| > 1 {
      var p, rest := parts[0], Join(parts[1..]);
      var s := p + " " + rest;
      assert ' ' in s by { assert s[|p|] == ' '; }
      var i := FirstSpace(s);
      assert i == |p|;
      assert s[..i] == p;
      assert s[i + 1..] == rest;
      SplitJoin(parts[1..]);
    }
  }
}
