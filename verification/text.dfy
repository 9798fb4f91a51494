/**
 The two string primitives the book screen relies on: JavaScript's
 `String.prototype.trim` and the `length` of a JavaScript string.

 A JavaScript string is a sequence of UTF-16 code units. Here a string is a
 sequence of Unicode code points; every character `trim` removes lies in the
 Basic Multilingual Plane, so trimming code points and trimming code units
 agree, and `length` is recovered by counting two units for every code point
 above U+FFFF.
 */
module Text {

  /** The ECMAScript WhiteSpace and LineTerminator code points: TAB, LF, VT,
      FF, CR, SPACE, NBSP, the other space separators (category Zs: U+1680,
      U+2000 to U+200A, U+202F, U+205F, U+3000), LINE SEPARATOR, PARAGRAPH
      SEPARATOR and the byte-order mark. */
  const SpaceCodes: set<int> := {
    0x09, 0x0A, 0x0B, 0x0C, 0x0D, 0x20, 0xA0, 0x1680,
    0x2000, 0x2001, 0x2002, 0x2003, 0x2004, 0x2005, 0x2006, 0x2007, 0x2008, 0x2009, 0x200A,
    0x2028, 0x2029, 0x202F, 0x205F, 0x3000, 0xFEFF
  }

  predicate IsSpace(c: char) {
    c as int in SpaceCodes
  }

  predicate AllSpace(s: string) {
    forall k :: 0 <= k < |s| ==> IsSpace(s[k])
  }

  /** Neither the first nor the last character is white space. */
  predicate IsTrimmed(s: string) {
    s == [] || (!IsSpace(s[0]) && !IsSpace(s[|s| - 1]))
  }

  /** `r` sits at offset `i` of `s` and everything around it is white space. */
  predicate Strips(s: string, i: int, r: string) {
    && 0 <= i && i + |r| <= |s|
    && s[i..i + |r|] == r
    && AllSpace(s[..i])
    && AllSpace(s[i + |r|..])
  }

  /** `String.prototype.trim`: drops white space from the front, then from
      the back, until neither end is white space. */
  function Trim(s: string): (r: string)
    ensures IsTrimmed(r)
    ensures |r| <= |s|
    decreases |s|
  {
    if |s| > 0 && IsSpace(s[0]) then Trim(s[1..])
    else if |s| > 0 && IsSpace(s[|s| - 1]) then Trim(s[..|s| - 1])
    else s
  }

  /** The number of UTF-16 code units of `s`, i.e. JavaScript's `length`. */
  function Utf16Length(s: string): (n: nat)
    ensures |s| <= n <= 2 * |s|
    ensures n == 0 <==> s == []
  {
    if s == [] then 0
    else (if s[0] as int > 0xFFFF then 2 else 1) + Utf16Length(s[1..])
  }

  /** White space added in front shifts the infix by one. */
  lemma StripsCons(c: char, t: string, i: int, r: string)
    requires IsSpace(c) && Strips(t, i, r)
    ensures Strips([c] + t, i + 1, r)
  {
    var s := [c] + t;
    assert s[i + 1..i + 1 + |r|] == t[i..i + |r|];
    assert s[i + 1 + |r|..] == t[i + |r|..];
    assert s[..i + 1] == [c] + t[..i];
  }

  /** White space added at the back leaves the infix where it was. */
  lemma StripsSnoc(t: string, c: char, i: int, r: string)
    requires IsSpace(c) && Strips(t, i, r)
    ensures Strips(t + [c], i, r)
  {
    var s := t + [c];
    assert s[i..i + |r|] == t[i..i + |r|];
    assert s[..i] == t[..i];
    assert s[i + |r|..] == t[i + |r|..] + [c];
  }

  /** What `Trim` keeps is an infix of its input surrounded only by white
      space. */
  lemma {:induction false} TrimStrips(s: string)
    ensures exists i :: Strips(s, i, Trim(s))
    decreases |s|
  {
    var r := Trim(s);
    if |s| > 0 && IsSpace(s[0]) {
      TrimStrips(s[1..]);
      var i :| Strips(s[1..], i, r);
      StripsCons(s[0], s[1..], i, r);
      assert [s[0]] + s[1..] == s;
    } else if |s| > 0 && IsSpace(s[|s| - 1]) {
      var t := s[..|s| - 1];
      TrimStrips(t);
      var i :| Strips(t, i, r);
      StripsSnoc(t, s[|s| - 1], i, r);
      assert t + [s[|s| - 1]] == s;
    } else {
      assert s[0..|s|] == s && s[..0] == [] && s[|s|..] == [];
      assert Strips(s, 0, r);
    }
  }

  /** The infix promised by `TrimStrips` is unique: whichever infix without
      white space at its ends is surrounded only by white space, `Trim`
      returns exactly it. Together the two lemmas characterise `Trim`. */
  lemma {:induction false} TrimUnique(s: string, i: int, m: string)
    requires Strips(s, i, m)
    requires IsTrimmed(m)
    ensures Trim(s) == m
    decreases |s|
  {
    if |s| > 0 && IsSpace(s[0]) {
      var i' := if i > 0 then i - 1 else 0;
      assert s[1..][i'..i' + |m|] == s[i' + 1..i' + 1 + |m|];
      assert Strips(s[1..], i', m);
      TrimUnique(s[1..], i', m);
    } else if |s| > 0 && IsSpace(s[|s| - 1]) {
      var t := s[..|s| - 1];
      if i > 0 { assert false; }
      if m == [] { assert false; }
      if i + |m| == |s| { assert false; }
      assert t[i..i + |m|] == s[i..i + |m|];
      assert t[..i] == s[..i];
      assert t[i + |m|..] == s[i + |m|..|s| - 1];
      assert Strips(t, i, m);
      TrimUnique(t, i, m);
    } else if s != [] {
      assert m == s[0..|s|];
    }
  }

  /** Trimming twice is trimming once. */
  lemma TrimIdempotent(s: string)
    ensures Trim(Trim(s)) == Trim(s)
  {
    var r := Trim(s);
    assert Strips(r, 0, r) by {
      assert r[..0] == [] && r[|r|..] == [] && r[0..|r|] == r;
    }
    TrimUnique(r, 0, r);
  }

  /** A string with no white space at either end is its own trim. */
  lemma TrimIsIdentityOnTrimmed(t: string)
    requires IsTrimmed(t)
    ensures Trim(t) == t
  {
  }

  /** Trim is empty exactly when the whole string is white space. */
  lemma TrimEmptyIffAllSpace(s: string)
    ensures Trim(s) == [] <==> AllSpace(s)
  {
    if AllSpace(s) {
      assert Strips(s, 0, []) by {
        assert s[..0] == [] && s[0..] == s;
      }
      TrimUnique(s, 0, []);
    } else {
      TrimStrips(s);
    }
  }
}
