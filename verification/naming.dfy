/** The call-name normalisation of the builder: a camelCase call name becomes
    the dashed, lower-case flag name it is looked up under. The builder applies
    `preg_replace('/([a-zA-Z])(?=[A-Z])/', '$1-', name)` and then `strtolower`. */
module Naming {

  predicate IsUpper(c: char) {
    'A' <= c <= 'Z'
  }

  predicate IsLower(c: char) {
    'a' <= c <= 'z'
  }

  predicate IsLetter(c: char) {
    IsUpper(c) || IsLower(c)
  }

  /** ASCII lower-casing of one character; everything but A-Z is kept. */
  function ToLower(c: char): (r: char)
    ensures !IsUpper(r)
    ensures IsUpper(c) ==> IsLower(r) && r as int == c as int + 32
    ensures !IsUpper(c) ==> r == c
  {
    if IsUpper(c) then (c as int + 32) as char else c
  }

  /** `strtolower`: every character lower-cased, positions kept. */
  function Lower(s: string): (r: string)
    ensures |r| == |s|
    ensures forall i :: 0 <= i < |s| ==> r[i] == ToLower(s[i])
  {
    seq(|s|, i requires 0 <= i < |s| => ToLower(s[i]))
  }

  /** Position `i` holds a letter immediately followed by an upper-case letter:
      the regular expression inserts a dash after it. */
  predicate Boundary(s: string, i: int) {
    0 <= i && i + 1 < |s| && IsLetter(s[i]) && IsUpper(s[i + 1])
  }

  predicate HasBoundary(s: string) {
    exists i :: 0 <= i < |s| && Boundary(s, i)
  }

  predicate HasUpper(s: string) {
    exists i :: 0 <= i < |s| && IsUpper(s[i])
  }

  /** The `preg_replace` step: a dash after every boundary letter. The look-ahead
      consumes nothing, so consecutive capitals each get a dash ("URL" -> "U-R-L"). */
  function InsertDashes(s: string): string
    decreases |s|
  {
    if |s| == 0 then ""
    else if |s| >= 2 && IsLetter(s[0]) && IsUpper(s[1]) then [s[0], '-'] + InsertDashes(s[1..])
    else [s[0]] + InsertDashes(s[1..])
  }

  /** The flag name a call name is looked up under. */
  function NormalizeName(name: string): (r: string)
    ensures !HasUpper(r)
    ensures |r| >= |name|
  {
    InsertDashesLength(name);
    Lower(InsertDashes(name))
  }

  /** The string with every dash removed. */
  function RemoveDashes(s: string): (r: string)
    ensures '-' !in r
    decreases |s|
  {
    if |s| == 0 then ""
    else if s[0] == '-' then RemoveDashes(s[1..])
    else [s[0]] + RemoveDashes(s[1..])
  }

  /** Inserting dashes never shortens a name, and lengthens it exactly when
      there is a boundary. */
  lemma {:induction false} InsertDashesLength(s: string)
    ensures |InsertDashes(s)| >= |s|
    ensures |InsertDashes(s)| == |s| <==> !HasBoundary(s)
    decreases |s|
  {
    if |s| > 0 {
      InsertDashesLength(s[1..]);
      if |s| >= 2 && IsLetter(s[0]) && IsUpper(s[1]) {
        assert Boundary(s, 0);
      } else {
        BoundaryOfTail(s);
      }
    }
  }

  /** Without a boundary at its head, a name has a boundary exactly when its tail does. */
  lemma BoundaryOfTail(s: string)
    requires |s| > 0 && !Boundary(s, 0)
    ensures HasBoundary(s) <==> HasBoundary(s[1..])
  {
    if HasBoundary(s) {
      var i :| 0 <= i < |s| && Boundary(s, i);
      assert s[1..][i - 1] == s[i] && s[1..][i] == s[i + 1];
      assert Boundary(s[1..], i - 1);
    }
    if HasBoundary(s[1..]) {
      var i :| 0 <= i < |s[1..]| && Boundary(s[1..], i);
      assert s[1..][i] == s[i + 1] && s[1..][i + 1] == s[i + 2];
      assert Boundary(s, i + 1);
    }
  }

  /** A name without boundaries passes the regular expression unchanged. */
  lemma {:induction false} InsertDashesIdentity(s: string)
    ensures InsertDashes(s) == s <==> !HasBoundary(s)
    decreases |s|
  {
    InsertDashesLength(s);
    if |s| > 0 && !HasBoundary(s) {
      assert !Boundary(s, 0);
      BoundaryOfTail(s);
      InsertDashesIdentity(s[1..]);
      assert s == [s[0]] + s[1..];
    }
  }

  /** The number of boundaries strictly before position `i`: how many dashes
      the replacement has inserted before the character at `i`. */
  function BoundariesBefore(s: string, i: nat): (r: nat)
    requires i <= |s|
    ensures r <= i
    decreases i
  {
    if i == 0 then 0
    else BoundariesBefore(s, i - 1) + (if Boundary(s, i - 1) then 1 else 0)
  }

  /** Counting boundaries of a name from its tail: the head contributes one
      when it is a boundary itself. */
  lemma {:induction false} BoundariesBeforeTail(s: string, i: nat)
    requires 0 < i <= |s|
    ensures BoundariesBefore(s, i) == (if Boundary(s, 0) then 1 else 0) + BoundariesBefore(s[1..], i - 1)
    decreases i
  {
    if i > 1 {
      BoundariesBeforeTail(s, i - 1);
      assert s[1..][i - 2] == s[i - 1];
      assert i - 1 < |s[1..]| ==> s[1..][i - 1] == s[i];
      assert Boundary(s, i - 1) == Boundary(s[1..], i - 2);
    }
  }

  /** The replacement lengthens a name by exactly its number of boundaries. */
  lemma {:induction false} InsertDashesCount(s: string)
    ensures |InsertDashes(s)| == |s| + BoundariesBefore(s, |s|)
    decreases |s|
  {
    if |s| > 0 {
      InsertDashesCount(s[1..]);
      BoundariesBeforeTail(s, |s|);
    }
  }

  /** The character at position `i` moves right by the boundaries before it. */
  lemma {:induction false} InsertDashesKeeps(s: string, i: nat)
    requires i < |s|
    ensures i + BoundariesBefore(s, i) < |InsertDashes(s)|
    ensures InsertDashes(s)[i + BoundariesBefore(s, i)] == s[i]
    decreases |s|
  {
    var t := s[1..];
    var head := if Boundary(s, 0) then [s[0], '-'] else [s[0]];
    var r := InsertDashes(s);
    assert r == head + InsertDashes(t);
    if i > 0 {
      InsertDashesKeeps(t, i - 1);
      BoundariesBeforeTail(s, i);
      var k := (i - 1) + BoundariesBefore(t, i - 1);
      assert r[|head| + k] == InsertDashes(t)[k];
      assert t[i - 1] == s[i];
    }
  }

  /** A boundary letter is immediately followed by a dash. */
  lemma {:induction false} InsertDashesDashAfter(s: string, i: nat)
    requires Boundary(s, i)
    ensures i + BoundariesBefore(s, i) + 1 < |InsertDashes(s)|
    ensures InsertDashes(s)[i + BoundariesBefore(s, i) + 1] == '-'
    decreases |s|
  {
    var t := s[1..];
    var head := if Boundary(s, 0) then [s[0], '-'] else [s[0]];
    var r := InsertDashes(s);
    assert r == head + InsertDashes(t);
    if i > 0 {
      assert t[i - 1] == s[i] && t[i] == s[i + 1];
      InsertDashesDashAfter(t, i - 1);
      BoundariesBeforeTail(s, i);
      var k := (i - 1) + BoundariesBefore(t, i - 1);
      assert r[|head| + k + 1] == InsertDashes(t)[k + 1];
    } else {
      assert r[1] == head[1];
    }
  }

  /** The flag name is longer than the call name by exactly its number of boundaries. */
  lemma NormalizeNameCount(name: string)
    ensures |NormalizeName(name)| == |name| + BoundariesBefore(name, |name|)
  {
    InsertDashesCount(name);
  }

  /** The flag name position by position: the character at position `i` of
      the call name, lower-cased, shifted right by the boundaries before it. */
  lemma NormalizeNameKeeps(name: string, i: nat)
    requires i < |name|
    ensures i + BoundariesBefore(name, i) < |NormalizeName(name)|
    ensures NormalizeName(name)[i + BoundariesBefore(name, i)] == ToLower(name[i])
  {
    InsertDashesKeeps(name, i);
  }

  /** In the flag name, a dash follows every boundary letter of the call name. */
  lemma NormalizeNameDashAfter(name: string, i: nat)
    requires Boundary(name, i)
    ensures i + BoundariesBefore(name, i) + 1 < |NormalizeName(name)|
    ensures NormalizeName(name)[i + BoundariesBefore(name, i) + 1] == '-'
  {
    InsertDashesDashAfter(name, i);
  }

  /** A name with no capitals is its own flag name. */
  lemma NormalizeFixesLowerCase(name: string)
    requires !HasUpper(name)
    ensures NormalizeName(name) == name
  {
    assert !HasBoundary(name);
    InsertDashesIdentity(name);
    assert Lower(name) == name;
  }

  /** Normalising a normalised name changes nothing. */
  lemma NormalizeIdempotent(name: string)
    ensures NormalizeName(NormalizeName(name)) == NormalizeName(name)
  {
    NormalizeFixesLowerCase(NormalizeName(name));
  }

  /** The only characters the regular expression adds are dashes. */
  lemma {:induction false} InsertDashesOnlyAddsDashes(s: string)
    ensures RemoveDashes(InsertDashes(s)) == RemoveDashes(s)
    decreases |s|
  {
    if |s| > 0 {
      InsertDashesOnlyAddsDashes(s[1..]);
      if |s| >= 2 && IsLetter(s[0]) && IsUpper(s[1]) {
        var t := InsertDashes(s[1..]);
        assert ([s[0], '-'] + t)[1..] == ['-'] + t;
        assert (['-'] + t)[1..] == t;
      } else {
        assert ([s[0]] + InsertDashes(s[1..]))[1..] == InsertDashes(s[1..]);
      }
    }
  }

  /** Lower-casing and removing dashes commute: lower-casing never makes or
      removes a dash. */
  lemma {:induction false} LowerRemoveDashesCommute(s: string)
    ensures RemoveDashes(Lower(s)) == Lower(RemoveDashes(s))
    decreases |s|
  {
    if |s| > 0 {
      LowerRemoveDashesCommute(s[1..]);
      assert Lower(s)[1..] == Lower(s[1..]);
      if s[0] != '-' {
        assert Lower([s[0]] + RemoveDashes(s[1..])) == [ToLower(s[0])] + Lower(RemoveDashes(s[1..]));
      }
    }
  }

  /** Up to the inserted dashes, the flag name is the lower-cased call name. */
  lemma NormalizeIsLowerUpToDashes(name: string)
    ensures RemoveDashes(NormalizeName(name)) == Lower(RemoveDashes(name))
  {
    InsertDashesOnlyAddsDashes(name);
    LowerRemoveDashesCommute(InsertDashes(name));
  }

  /** The flag name is the plain lower-cased name exactly when the call name
      has no letter followed by a capital. */
  lemma NormalizeIsLowerIff(name: string)
    ensures NormalizeName(name) == Lower(name) <==> !HasBoundary(name)
  {
    InsertDashesLength(name);
    InsertDashesIdentity(name);
  }

  /** The regular expression on "fooBar": one dash, after the "o" before "B". */
  lemma InsertDashesFooBar()
    ensures InsertDashes("fooBar") == "foo-Bar"
  {
    assert InsertDashes("Bar") == "Bar" by {
      InsertDashesIdentity("Bar");
      assert !Boundary("Bar", 0) && !Boundary("Bar", 1);
    }
    assert InsertDashes("oBar") == "o-Bar" by {
      assert "oBar"[1..] == "Bar";
    }
    assert InsertDashes("ooBar") == "oo-Bar" by {
      assert "ooBar"[1..] == "oBar";
    }
    assert "fooBar"[1..] == "ooBar";
  }

  /** Normalisation is not injective: distinct call names reach the same flag. */
  lemma NormalizeNotInjective()
    ensures NormalizeName("fooBar") == NormalizeName("foo-bar") == "foo-bar"
  {
    InsertDashesFooBar();
    assert Lower("foo-Bar") == "foo-bar";
    assert !HasUpper("foo-bar") by {
      assert forall i :: 0 <= i < |"foo-bar"| ==> !IsUpper("foo-bar"[i]);
    }
    NormalizeFixesLowerCase("foo-bar");
  }
}
