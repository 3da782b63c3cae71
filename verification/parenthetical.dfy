/** `s.replace(/（.+?）/, '')` (main.js:100): removes the first full-width
    parenthesised segment of a string.

    JavaScript takes the leftmost match, and for that start the shortest one
    (`+?` is lazy). `.` matches any character except a line terminator, so a
    match never spans a line break, and it needs at least one character
    between the brackets.
 */
module Parenthetical {
  import opened Options

  const Open: char := '（'
  const Close: char := '）'

  /** The characters JavaScript's `.` does not match. */
  predicate IsLineTerminator(c: char) {
    c == '\n' || c == '\r' || c == '\U{2028}' || c == '\U{2029}'
  }

  /** `s[i..j + 1]` is a match of `（.+?）` taken greedily or lazily. */
  predicate IsMatch(s: string, i: int, j: int) {
    && 0 <= i && i + 2 <= j < |s|
    && s[i] == Open && s[j] == Close
    && forall k :: i < k < j ==> !IsLineTerminator(s[k])
  }

  /** The lazy search for the closing bracket of a match opened at `i`,
      continuing from `j` once every earlier end has been ruled out. */
  function CloseFrom(s: string, i: nat, j: nat): (r: Option<nat>)
    requires i < j <= |s| && s[i] == Open
    requires forall k :: i < k < j ==> !IsLineTerminator(s[k])
    requires forall j' :: j' < j ==> !IsMatch(s, i, j')
    ensures r.Some? ==> IsMatch(s, i, r.value)
    ensures r.Some? ==> forall j' :: j' < r.value ==> !IsMatch(s, i, j')
    ensures r.None? ==> forall j' :: !IsMatch(s, i, j')
    decreases |s| - j
  {
    if j == |s| || IsLineTerminator(s[j]) then None
    else if s[j] == Close && j >= i + 2 then Some(j)
    else CloseFrom(s, i, j + 1)
  }

  /** The leftmost match starting at or after `from`, and for that start the
      shortest. */
  function FindMatch(s: string, from: nat): (r: Option<(nat, nat)>)
    requires forall i, j :: i < from ==> !IsMatch(s, i, j)
    ensures r.Some? ==> IsMatch(s, r.value.0, r.value.1)
    ensures r.Some? ==> forall i, j :: i < r.value.0 ==> !IsMatch(s, i, j)
    ensures r.Some? ==> forall j :: j < r.value.1 ==> !IsMatch(s, r.value.0, j)
    ensures r.None? ==> forall i, j :: !IsMatch(s, i, j)
    decreases |s| - from
  {
    if from >= |s| then None
    else if s[from] == Open && CloseFrom(s, from, from + 1).Some? then
      Some((from, CloseFrom(s, from, from + 1).value))
    else FindMatch(s, from + 1)
  }

  /** `s.replace(/（.+?）/, '')`: the first match removed, or `s` unchanged
      when there is none. */
  function RemoveFirst(s: string): (r: string)
    ensures (forall i, j :: !IsMatch(s, i, j)) ==> r == s
    ensures (exists i, j :: IsMatch(s, i, j)) ==>
              exists i, j :: IsMatch(s, i, j) && r == s[..i] + s[j + 1..] &&
                (forall i', j' :: i' < i ==> !IsMatch(s, i', j')) &&
                (forall j' :: j' < j ==> !IsMatch(s, i, j'))
  {
    match FindMatch(s, 0)
    case None => s
    case Some((i, j)) => s[..i] + s[j + 1..]
  }

  /** When the only `（` of the text opens a segment that runs to a final
      `）`, the whole segment is removed and the text before it remains. */
  lemma RemoveTrailing(p: string, m: string)
    requires Open !in p
    requires |m| >= 1 && Close !in m
    requires forall k :: 0 <= k < |m| ==> !IsLineTerminator(m[k])
    ensures RemoveFirst(p + [Open] + m + [Close]) == p
  {
    var s := p + [Open] + m + [Close];
    var i, j := |p|, |s| - 1;
    assert IsMatch(s, i, j) by {
      forall k | i < k < j ensures !IsLineTerminator(s[k]) {
        assert s[k] == m[k - i - 1];
      }
    }
    forall i', j' | i' < i ensures !IsMatch(s, i', j') {
      if 0 <= i' { assert s[i'] == p[i']; }
    }
    forall j' | j' < j ensures !IsMatch(s, i, j') {
      if i < j' { assert s[j'] == m[j' - i - 1]; }
    }
    assert s[..i] == p;
  }

  /** A text without `（` is left as it is. */
  lemma RemoveNoOpen(s: string)
    requires Open !in s
    ensures RemoveFirst(s) == s
  {
    forall i, j ensures !IsMatch(s, i, j) {
      if 0 <= i < |s| { assert s[i] != Open; }
    }
  }
}
