/**
 * The three Python string operations the analyzer builds its issue text
 * with: `str.lower()`, `' '.join(...)` and the substring test `k in text`.
 * Case mapping is the ASCII part of Python's only.
 */
module PyStrings {

  /** An ASCII capital letter. */
  predicate IsUpperAscii(c: char)
  {
    'A' <= c <= 'Z'
  }

  function LowerChar(c: char): char
  {
    if IsUpperAscii(c) then (c as int + 32) as char else c
  }

  function UpperChar(c: char): char
  {
    if 'a' <= c <= 'z' then (c as int - 32) as char else c
  }

  /** The two strings differ at most in the case of ASCII letters. */
  predicate SameIgnoringCase(a: string, b: string)
  {
    |a| == |b| && forall i :: 0 <= i < |a| ==> LowerChar(a[i]) == LowerChar(b[i])
  }

  /**
   * `s.lower()`: the result agrees with s up to case and has no capital
   * letter left, which determines it (see LowerAgreesWith).
   */
  function Lower(s: string): (r: string)
    ensures SameIgnoringCase(r, s)
    ensures forall i :: 0 <= i < |r| ==> !IsUpperAscii(r[i])
  {
    seq(|s|, i requires 0 <= i < |s| => LowerChar(s[i]))
  }

  /** `s.upper()` on ASCII letters. */
  function Upper(s: string): (r: string)
    ensures SameIgnoringCase(r, s)
    ensures forall i :: 0 <= i < |r| ==> !('a' <= r[i] <= 'z')
  {
    seq(|s|, i requires 0 <= i < |s| => UpperChar(s[i]))
  }

  /** Lowering sends strings that agree up to case to the same string. */
  lemma LowerAgreesWith(a: string, b: string)
    requires SameIgnoringCase(a, b)
    ensures Lower(a) == Lower(b)
  {
    assert forall i :: 0 <= i < |a| ==> Lower(a)[i] == Lower(b)[i];
  }

  lemma LowerConcat(a: string, b: string)
    ensures Lower(a + b) == Lower(a) + Lower(b)
  {
    assert forall i :: 0 <= i < |a + b| ==> Lower(a + b)[i] == (Lower(a) + Lower(b))[i];
  }

  lemma SameIgnoringCaseConcat(a: string, b: string, a': string, b': string)
    requires SameIgnoringCase(a, a') && SameIgnoringCase(b, b')
    ensures SameIgnoringCase(a + b, a' + b')
  {
    forall i | 0 <= i < |a + b| ensures LowerChar((a + b)[i]) == LowerChar((a' + b')[i]) {
      if i < |a| { assert (a + b)[i] == a[i] && (a' + b')[i] == a'[i]; }
      else { assert (a + b)[i] == b[i - |a|] && (a' + b')[i] == b'[i - |a|]; }
    }
  }

  /** `sep.join(parts)`: empty for no parts; otherwise it starts with the first part and ends with the last. */
  function Join(sep: string, parts: seq<string>): (r: string)
    ensures parts == [] ==> r == ""
    ensures parts != [] ==> parts[0] <= r && |parts[|parts| - 1]| <= |r| && r[|r| - |parts[|parts| - 1]|..] == parts[|parts| - 1]
  {
    if |parts| == 0 then ""
    else if |parts| == 1 then parts[0]
    else
      var rest := Join(sep, parts[1..]);
      assert (parts[0] + sep + rest)[|parts[0] + sep|..] == rest;
      parts[0] + sep + rest
  }

  /** Joining lists that agree up to case, element by element, gives strings that agree up to case. */
  lemma {:induction false} JoinIgnoresCase(sep: string, parts: seq<string>, parts': seq<string>)
    requires |parts| == |parts'|
    requires forall i :: 0 <= i < |parts| ==> SameIgnoringCase(parts[i], parts'[i])
    ensures SameIgnoringCase(Join(sep, parts), Join(sep, parts'))
  {
    if |parts| > 1 {
      JoinIgnoresCase(sep, parts[1..], parts'[1..]);
      SameIgnoringCaseConcat(parts[0], sep, parts'[0], sep);
      SameIgnoringCaseConcat(parts[0] + sep, Join(sep, parts[1..]), parts'[0] + sep, Join(sep, parts'[1..]));
    }
  }

  /** The pattern stands in the text at offset i. */
  predicate OccursAt(text: string, pattern: string, i: int)
  {
    0 <= i && i + |pattern| <= |text| && text[i..i + |pattern|] == pattern
  }

  /** Python's `pattern in text`: true exactly when the pattern occurs at some offset. */
  function Contains(text: string, pattern: string): (r: bool)
    ensures r <==> exists i :: OccursAt(text, pattern, i)
    decreases |text|
  {
    if pattern <= text then
      assert OccursAt(text, pattern, 0);
      true
    else if |text| == 0 then
      false
    else
      ContainsShift(text, pattern);
      Contains(text[1..], pattern)
  }

  /** Dropping the first character of the text loses no occurrence except one at offset 0. */
  lemma ContainsShift(text: string, pattern: string)
    requires |text| > 0 && !(pattern <= text)
    ensures (exists i :: OccursAt(text, pattern, i)) <==> (exists i :: OccursAt(text[1..], pattern, i))
  {
    if i :| OccursAt(text, pattern, i) {
      assert i != 0 by { assert text[..|pattern|] == text[0..0 + |pattern|]; }
      assert text[1..][i - 1..i - 1 + |pattern|] == text[i..i + |pattern|];
      assert OccursAt(text[1..], pattern, i - 1);
    }
    if i :| OccursAt(text[1..], pattern, i) {
      assert text[1..][i..i + |pattern|] == text[i + 1..i + 1 + |pattern|];
      assert OccursAt(text, pattern, i + 1);
    }
  }

  /** An occurrence in the last piece is an occurrence in the whole. */
  lemma ContainsSuffix(pre: string, text: string, pattern: string)
    requires Contains(text, pattern)
    ensures Contains(pre + text, pattern)
  {
    var i :| OccursAt(text, pattern, i);
    assert (pre + text)[|pre| + i..|pre| + i + |pattern|] == text[i..i + |pattern|];
    assert OccursAt(pre + text, pattern, |pre| + i);
  }

  /** An occurrence in the first piece is an occurrence in the whole. */
  lemma ContainsPrefix(text: string, post: string, pattern: string)
    requires Contains(text, pattern)
    ensures Contains(text + post, pattern)
  {
    var i :| OccursAt(text, pattern, i);
    assert (text + post)[i..i + |pattern|] == text[i..i + |pattern|];
    assert OccursAt(text + post, pattern, i);
  }

  /** A pattern found in one of the parts, after lowering, is found in the lowered join. */
  lemma {:induction false} JoinContainsPart(sep: string, parts: seq<string>, k: nat, pattern: string)
    requires k < |parts| && Contains(Lower(parts[k]), pattern)
    ensures Contains(Lower(Join(sep, parts)), pattern)
  {
    if |parts| > 1 {
      var head, rest := parts[0] + sep, Join(sep, parts[1..]);
      LowerConcat(head, rest);
      if k == 0 {
        LowerConcat(parts[0], sep);
        ContainsPrefix(Lower(parts[0]), Lower(sep), pattern);
        ContainsPrefix(Lower(head), Lower(rest), pattern);
      } else {
        JoinContainsPart(sep, parts[1..], k - 1, pattern);
        ContainsSuffix(Lower(head), Lower(rest), pattern);
      }
    }
  }
}
