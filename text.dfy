/** Character and string helpers standing in for the Python string operations
    the classifier uses: `str.lower()`, the `in` substring test, `str.replace`
    of one character, and `str.find`/`str.rfind` of one character. */
module Text {

  // ---------------------------------------------------------------------------
  // Lowercasing (`str.lower()`, restricted to ASCII)
  // ---------------------------------------------------------------------------

  predicate IsUpper(c: char) {
    'A' <= c <= 'Z'
  }

  /** True when some character of `s` is an upper-case ASCII letter. */
  predicate HasUpper(s: string) {
    exists i :: 0 <= i < |s| && IsUpper(s[i])
  }

  function ToLower(c: char): (d: char)
    ensures !IsUpper(d)
    ensures !IsUpper(c) ==> d == c
    ensures IsUpper(c) ==> d as int == c as int + 32
  {
    if IsUpper(c) then (c as int + 32) as char else c
  }

  /** The lowercase form of `s`: same length, each letter mapped on its own,
      and no upper-case letter left. */
  function Lower(s: string): (r: string)
    ensures |r| == |s|
    ensures forall i :: 0 <= i < |s| ==> r[i] == ToLower(s[i])
    ensures !HasUpper(r)
  {
    if s == [] then [] else [ToLower(s[0])] + Lower(s[1..])
  }

  // ---------------------------------------------------------------------------
  // Substring test (`pat in text`, and `re.search(re.escape(pat), text)`)
  // ---------------------------------------------------------------------------

  /** `pat` occurs in `text` starting at index `i`. */
  ghost predicate OccursAt(text: string, pat: string, i: int) {
    0 <= i && i + |pat| <= |text| && text[i..i + |pat|] == pat
  }

  /** The executable substring test: try every start position left to right. */
  function Contains(text: string, pat: string): (b: bool)
    ensures |pat| == 0 ==> b
    ensures b ==> |pat| <= |text|
    decreases |text|
  {
    if |pat| > |text| then false
    else if text[..|pat|] == pat then true
    else Contains(text[1..], pat)
  }

  /** `Contains` agrees with the reference definition: it holds exactly when
      `pat` occurs at some index of `text`. */
  lemma {:induction false} ContainsIffOccurs(text: string, pat: string)
    ensures Contains(text, pat) <==> exists i :: OccursAt(text, pat, i)
    decreases |text|
  {
    if |pat| > |text| {
    } else if text[..|pat|] == pat {
      assert OccursAt(text, pat, 0);
    } else {
      ContainsIffOccurs(text[1..], pat);
      if Contains(text[1..], pat) {
        var i :| OccursAt(text[1..], pat, i);
        assert text[1..][i..i + |pat|] == text[i + 1..i + 1 + |pat|];
        assert OccursAt(text, pat, i + 1);
      }
      if exists i :: OccursAt(text, pat, i) {
        var i :| OccursAt(text, pat, i);
        assert i != 0;
        assert text[1..][i - 1..i - 1 + |pat|] == text[i..i + |pat|];
        assert OccursAt(text[1..], pat, i - 1);
      }
    }
  }

  /** `ContainsIffOccurs` for a lowercased text and pattern, stated on the
      lowercasing calls themselves so that callers can use it under quantifiers. */
  lemma LowerContainsIffOccurs(text: string, pat: string)
    ensures Contains(Lower(text), Lower(pat)) <==> exists i :: OccursAt(Lower(text), Lower(pat), i)
  {
    ContainsIffOccurs(Lower(text), Lower(pat));
  }

  /** A witness position is enough to establish `Contains`. */
  lemma ContainsAt(text: string, pat: string, i: int)
    requires OccursAt(text, pat, i)
    ensures Contains(text, pat)
  {
    ContainsIffOccurs(text, pat);
  }

  /** A pattern with an upper-case letter never occurs in a lowercased text,
      whatever that text was before lowercasing. */
  lemma {:induction false} UpperNeverInLower(text: string, pat: string)
    requires HasUpper(pat)
    ensures !Contains(Lower(text), pat)
  {
    var lowered := Lower(text);
    var j :| 0 <= j < |pat| && IsUpper(pat[j]);
    forall i | 0 <= i && i + |pat| <= |lowered| ensures !OccursAt(lowered, pat, i) {
      assert lowered[i..i + |pat|][j] == lowered[i + j];
    }
    ContainsIffOccurs(lowered, pat);
  }

  // ---------------------------------------------------------------------------
  // Single-character replacement (`s.replace(old, new)` for one character)
  // ---------------------------------------------------------------------------

  function ReplaceChar(s: string, from: char, to: char): (r: string)
    ensures |r| == |s|
    ensures forall i :: 0 <= i < |s| ==> r[i] == (if s[i] == from then to else s[i])
    ensures from != to ==> from !in r
  {
    if s == [] then [] else [if s[0] == from then to else s[0]] + ReplaceChar(s[1..], from, to)
  }

  /** Replacing one character distributes over concatenation. */
  lemma ReplaceCharConcat(a: string, b: string, from: char, to: char)
    ensures ReplaceChar(a + b, from, to) == ReplaceChar(a, from, to) + ReplaceChar(b, from, to)
  {
  }

  /** A string that does not contain `from` is left unchanged. */
  lemma ReplaceCharAbsent(s: string, from: char, to: char)
    requires from !in s
    ensures ReplaceChar(s, from, to) == s
  {
  }

  /** Replacing `from` by `to` neither removes nor introduces a third character `c`. */
  lemma ReplaceCharKeeps(s: string, from: char, to: char, c: char)
    requires c != from && c != to
    ensures c in ReplaceChar(s, from, to) <==> c in s
  {
    var r := ReplaceChar(s, from, to);
    if c in r {
      var i :| 0 <= i < |r| && r[i] == c;
      assert s[i] == c;
    }
    if c in s {
      var i :| 0 <= i < |s| && s[i] == c;
      assert r[i] == c;
    }
  }

  // ---------------------------------------------------------------------------
  // Position of one character (`str.find`, `str.rfind`)
  // ---------------------------------------------------------------------------

  /** Index of the first `c` in `s`, or -1 when there is none. */
  function FirstIndexOf(s: string, c: char): (k: int)
    ensures c !in s <==> k == -1
    ensures c in s ==> 0 <= k < |s| && s[k] == c && c !in s[..k]
  {
    if s == [] then -1
    else if s[0] == c then 0
    else
      var k := FirstIndexOf(s[1..], c);
      if k == -1 then -1 else k + 1
  }

  /** Index of the last `c` in `s`, or -1 when there is none. */
  function LastIndexOf(s: string, c: char): (k: int)
    ensures c !in s <==> k == -1
    ensures c in s ==> 0 <= k < |s| && s[k] == c && c !in s[k + 1..]
  {
    if s == [] then -1
    else if s[|s| - 1] == c then |s| - 1
    else LastIndexOf(s[..|s| - 1], c)
  }
}
