/**
 * The appointment-date search of components/OrderTimeline.tsx: the first match of
 * `\b[A-Za-z]+ \d{1,2}, \d{4}\b` in a string, as `String.prototype.match` finds it (the
 * leftmost start that matches; the greedy runs there cannot backtrack into a match, so each
 * start gives at most one end).
 */
module DatePattern {
  import opened Wrappers

  predicate IsLetter(c: char) {
    'A' <= c <= 'Z' || 'a' <= c <= 'z'
  }

  predicate IsDigit(c: char) {
    '0' <= c <= '9'
  }

  /** The characters `\w` matches. */
  predicate IsWordChar(c: char) {
    IsLetter(c) || IsDigit(c) || c == '_'
  }

  /** `\b` at position i: a word character on exactly one side. */
  predicate Boundary(s: string, i: nat)
    requires i <= |s|
  {
    (i > 0 && IsWordChar(s[i - 1])) != (i < |s| && IsWordChar(s[i]))
  }

  predicate AllLetters(s: string, i: nat, j: nat)
    requires i <= j <= |s|
  {
    forall k :: i <= k < j ==> IsLetter(s[k])
  }

  predicate AllDigits(s: string, i: nat, j: nat)
    requires i <= j <= |s|
  {
    forall k :: i <= k < j ==> IsDigit(s[k])
  }

  /**
   * The declarative shape of a match from i: letters s[i..a], a space, one or two digits
   * s[a+1..b], ", ", four digits s[b+2..b+6], with a word boundary at both ends.
   */
  predicate DateShape(s: string, i: nat, a: nat, b: nat) {
    i < a && a + 2 <= b <= a + 3 && b + 6 <= |s| &&
    AllLetters(s, i, a) && s[a] == ' ' && AllDigits(s, a + 1, b) &&
    s[b] == ',' && s[b + 1] == ' ' && AllDigits(s, b + 2, b + 6) &&
    Boundary(s, i) && Boundary(s, b + 6)
  }

  /** The end of the run of letters that starts at i (greedy `[A-Za-z]+`). */
  function LetterEnd(s: string, i: nat): (j: nat)
    requires i <= |s|
    ensures i <= j <= |s| && AllLetters(s, i, j) && (j == |s| || !IsLetter(s[j]))
    decreases |s| - i
  {
    if i < |s| && IsLetter(s[i]) then LetterEnd(s, i + 1) else i
  }

  /** The end of the match that starts at i, if one does. */
  function MatchAt(s: string, i: nat): (r: Option<nat>)
    requires i <= |s|
  {
    var a := LetterEnd(s, i);
    if a == i || !Boundary(s, i) || a + 1 >= |s| || s[a] != ' ' || !IsDigit(s[a + 1]) then None
    else
      var b := if a + 2 < |s| && IsDigit(s[a + 2]) then a + 3 else a + 2;
      if b + 6 > |s| || s[b] != ',' || s[b + 1] != ' ' || !AllDigits(s, b + 2, b + 6) || !Boundary(s, b + 6) then None
      else Some(b + 6)
  }

  /** A match found at i has the declarative shape. */
  lemma MatchAtSound(s: string, i: nat)
    requires i <= |s| && MatchAt(s, i).Some?
    ensures exists a: nat, b: nat :: DateShape(s, i, a, b) && MatchAt(s, i) == Some(b + 6)
  {
    var a := LetterEnd(s, i);
    var b := if a + 2 < |s| && IsDigit(s[a + 2]) then a + 3 else a + 2;
    assert DateShape(s, i, a, b);
  }

  /** Every occurrence of the shape at i is the match at i. */
  lemma MatchAtComplete(s: string, i: nat, a: nat, b: nat)
    requires i <= |s| && DateShape(s, i, a, b)
    ensures MatchAt(s, i) == Some(b + 6)
  {
    LetterEndAt(s, i, a);
  }

  lemma {:induction false} LetterEndAt(s: string, i: nat, a: nat)
    requires i <= a < |s| && AllLetters(s, i, a) && !IsLetter(s[a])
    ensures LetterEnd(s, i) == a
    decreases a - i
  {
    if i < a {
      LetterEndAt(s, i + 1, a);
    }
  }

  /** The leftmost match at or after `from`, as its start and end. */
  function FirstMatchFrom(s: string, from: nat): (r: Option<(nat, nat)>)
    requires from <= |s|
    ensures r.Some? ==> from <= r.value.0 <= |s| && MatchAt(s, r.value.0) == Some(r.value.1)
    ensures r.Some? ==> forall j :: from <= j < r.value.0 ==> MatchAt(s, j).None?
    ensures r.None? ==> forall j :: from <= j <= |s| ==> MatchAt(s, j).None?
    decreases |s| - from
  {
    match MatchAt(s, from)
    case Some(e) => Some((from, e))
    case None => if from == |s| then None else FirstMatchFrom(s, from + 1)
  }

  /** `s.match(/\b([A-Za-z]+ \d{1,2}, \d{4})\b/)?.[0]`. */
  function FirstDate(s: string): (r: Option<string>) {
    match FirstMatchFrom(s, 0)
    case Some((i, e)) => if i <= e <= |s| then Some(s[i..e]) else None
    case None => None
  }

  /**
   * The date found is the leftmost occurrence of the shape: it has the shape, and no occurrence
   * starts earlier; no date is found exactly when the shape occurs nowhere.
   */
  lemma FirstDateLeftmost(s: string)
    ensures FirstDate(s).Some? ==>
      exists i: nat, a: nat, b: nat :: DateShape(s, i, a, b) && FirstDate(s).value == s[i..b + 6] &&
        forall j: nat, a': nat, b': nat :: j < i ==> !DateShape(s, j, a', b')
    ensures FirstDate(s).None? <==> forall i: nat, a: nat, b: nat :: !DateShape(s, i, a, b)
  {
    var r := FirstMatchFrom(s, 0);
    forall j: nat, a': nat, b': nat | DateShape(s, j, a', b') && (r.None? || j < r.value.0)
      ensures false
    {
      MatchAtComplete(s, j, a', b');
    }
    if r.Some? {
      var i := r.value.0;
      MatchAtSound(s, i);
      var a: nat, b: nat :| DateShape(s, i, a, b) && MatchAt(s, i) == Some(b + 6);
      assert FirstDate(s).value == s[i..b + 6];
    }
  }

  /** A text that starts with a date yields that date. */
  lemma DateAtStart(s: string, a: nat, b: nat)
    requires DateShape(s, 0, a, b)
    ensures FirstDate(s) == Some(s[..b + 6])
  {
    MatchAtComplete(s, 0, a, b);
  }

  lemma ExampleShape(s: string)
    requires s == "June 3, 2025, 10:00 AM"
    ensures DateShape(s, 0, 4, 6)
  {
    assert AllLetters(s, 0, 4);
    assert AllDigits(s, 5, 6);
    assert AllDigits(s, 8, 12);
  }

  /** An appointment text that starts with its date. */
  lemma ExampleAppointment(s: string)
    requires s == "June 3, 2025, 10:00 AM"
    ensures FirstDate(s) == Some("June 3, 2025")
  {
    ExampleShape(s);
    DateAtStart(s, 4, 6);
    assert s[..12] == "June 3, 2025";
  }
}
