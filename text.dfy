/**
 * The string operations app.py relies on, over `string == seq<char>`:
 * ASCII lowercasing (str.lower restricted to ASCII), substring containment
 * (the `in` operator on two strings) and splitting at the last '.'
 * (str.rsplit('.', 1)).
 */
module Text {
  import opened Wrappers

  predicate IsUpper(c: char) {
    'A' <= c <= 'Z'
  }

  /** str.lower() on one character, ASCII letters only. */
  function LowerChar(c: char): (r: char)
    ensures !IsUpper(r)
    ensures !IsUpper(c) ==> r == c
    ensures IsUpper(c) ==> 'a' <= r <= 'z' && r as int - c as int == 'a' as int - 'A' as int
  {
    if IsUpper(c) then (c as int - 'A' as int + 'a' as int) as char else c
  }

  /** str.lower() on a whole string: every character lowered, the length kept. */
  function Lower(s: string): (r: string)
    ensures |r| == |s|
    ensures forall i :: 0 <= i < |s| ==> r[i] == LowerChar(s[i])
  {
    seq(|s|, i requires 0 <= i < |s| => LowerChar(s[i]))
  }

  /** Lowering works character by character, so it distributes over concatenation. */
  lemma LowerAppend(a: string, b: string)
    ensures Lower(a + b) == Lower(a) + Lower(b)
  {
    assert forall i :: 0 <= i < |a + b| ==> Lower(a + b)[i] == (Lower(a) + Lower(b))[i];
  }

  /** Lowered text is already lower case. */
  lemma LowerIdempotent(s: string)
    ensures Lower(Lower(s)) == Lower(s)
  {
    assert forall i :: 0 <= i < |s| ==> Lower(Lower(s))[i] == Lower(s)[i];
  }

  /** Lowering neither creates nor removes a given non-letter character, in particular '.'. */
  lemma LowerKeepsNonLetter(s: string, c: char)
    requires !('A' <= c <= 'Z') && !('a' <= c <= 'z')
    ensures c in Lower(s) <==> c in s
  {
    if c in s {
      var i :| 0 <= i < |s| && s[i] == c;
      assert Lower(s)[i] == c;
    }
    if c in Lower(s) {
      var i :| 0 <= i < |s| && Lower(s)[i] == c;
      assert s[i] == c;
    }
  }

  /** `pattern` occurs in `text` starting at index i. */
  predicate OccursAt(text: string, pattern: string, i: nat) {
    i + |pattern| <= |text| && text[i..i + |pattern|] == pattern
  }

  /**
   * Python's `pattern in text` for two strings. A pattern longer than the
   * text never occurs; the empty pattern occurs in every text.
   */
  predicate Contains(text: string, pattern: string)
    ensures Contains(text, pattern) ==> |pattern| <= |text|
    ensures pattern == [] ==> Contains(text, pattern)
  {
    assert pattern == [] ==> OccursAt(text, pattern, 0);
    exists i: nat | i <= |text| :: OccursAt(text, pattern, i)
  }

  /** A string contains every string it is built around. */
  lemma ContainsInfix(before: string, pattern: string, after: string)
    ensures Contains(before + pattern + after, pattern)
  {
    var text := before + pattern + after;
    assert OccursAt(text, pattern, |before|);
  }

  /** Index of the last '.' among the first n characters of s, if any. */
  function LastDotBelow(s: string, n: nat): (r: Option<nat>)
    requires n <= |s|
    ensures r.None? <==> forall j :: 0 <= j < n ==> s[j] != '.'
    ensures r.Some? ==> r.value < n && s[r.value] == '.'
    ensures r.Some? ==> forall j :: r.value < j < n ==> s[j] != '.'
  {
    if n == 0 then None
    else if s[n - 1] == '.' then Some(n - 1)
    else LastDotBelow(s, n - 1)
  }

  /** Index of the last '.' in s, if any (what str.rsplit('.', 1) splits at). */
  function LastDot(s: string): (r: Option<nat>)
    ensures r.None? <==> '.' !in s
    ensures r.Some? ==> r.value < |s| && s[r.value] == '.'
    ensures r.Some? ==> forall j :: r.value < j < |s| ==> s[j] != '.'
  {
    LastDotBelow(s, |s|)
  }

  /** The last dot of `before + "." + after` is the one in the middle when `after` has none. */
  lemma LastDotOfSplit(before: string, after: string)
    requires '.' !in after
    ensures LastDot(before + "." + after) == Some(|before|)
  {
    var s := before + "." + after;
    assert |s| == |before| + 1 + |after|;
    assert s[|before|] == '.';
    var i := LastDot(s).value;
    assert i >= |before|;
  }

  /**
   * str.rsplit('.', 1): [s] when s has no '.', otherwise the text before and
   * the text after its last '.'.
   */
  function RSplitDot(s: string): (parts: seq<string>)
    ensures '.' !in s ==> parts == [s]
    ensures '.' in s ==> |parts| == 2 && s == parts[0] + "." + parts[1] && '.' !in parts[1]
  {
    match LastDot(s)
    case None => [s]
    case Some(i) =>
      assert s == s[..i] + "." + s[i + 1..];
      [s[..i], s[i + 1..]]
  }

  /**
   * The split is the unique decomposition `before + "." + after` in which
   * `after` holds no '.': rsplit splits at the last dot, not the first.
   */
  lemma RSplitDotUnique(before: string, after: string)
    requires '.' !in after
    ensures RSplitDot(before + "." + after) == [before, after]
  {
    var s := before + "." + after;
    LastDotOfSplit(before, after);
    assert s[..|before|] == before;
    assert s[|before| + 1..] == after;
  }

  /** Lowering commutes with the split: the lowered string splits into the lowered parts. */
  lemma RSplitDotLower(s: string)
    requires '.' in s
    ensures RSplitDot(Lower(s)) == [Lower(RSplitDot(s)[0]), Lower(RSplitDot(s)[1])]
  {
    var parts := RSplitDot(s);
    LowerAppend(parts[0] + ".", parts[1]);
    LowerAppend(parts[0], ".");
    assert Lower(".") == ".";
    LowerKeepsNonLetter(parts[1], '.');
    RSplitDotUnique(Lower(parts[0]), Lower(parts[1]));
  }
}
