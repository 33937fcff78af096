/** The string built-ins the repository relies on: `trim`, `toLowerCase`
    and `includes`, with the meaning JavaScript gives them (lower-casing
    restricted to ASCII). */
module Text {

  /** The characters `String.prototype.trim` strips: the ECMAScript
      WhiteSpace and LineTerminator code points. */
  predicate IsSpace(c: char)
  {
    || c == ' ' || c == '\t' || c == '\n' || c == '\r'
    || c == '\U{000B}' || c == '\U{000C}' || c == '\U{00A0}' || c == '\U{1680}'
    || ('\U{2000}' <= c <= '\U{200A}')
    || c == '\U{2028}' || c == '\U{2029}' || c == '\U{202F}' || c == '\U{205F}'
    || c == '\U{3000}' || c == '\U{FEFF}'
  }

  /** `s` without its leading white space. */
  function TrimStart(s: string): (r: string)
    ensures |r| <= |s| && r == s[|s| - |r|..]
    ensures forall i | 0 <= i < |s| - |r| :: IsSpace(s[i])
    ensures r != [] ==> !IsSpace(r[0])
  {
    if s != [] && IsSpace(s[0]) then TrimStart(s[1..]) else s
  }

  /** `s` without its trailing white space. */
  function TrimEnd(s: string): (r: string)
    ensures |r| <= |s| && r == s[..|r|]
    ensures forall i | |r| <= i < |s| :: IsSpace(s[i])
    ensures r != [] ==> !IsSpace(r[|r| - 1])
  {
    if s != [] && IsSpace(s[|s| - 1]) then TrimEnd(s[..|s| - 1]) else s
  }

  /** `r` is the slice of `s` starting at `i`, and `s` has only white space
      before and after it. */
  predicate Encloses(s: string, r: string, i: int)
  {
    && 0 <= i && i + |r| <= |s| && r == s[i..i + |r|]
    && (forall k | 0 <= k < i :: IsSpace(s[k]))
    && (forall k | i + |r| <= k < |s| :: IsSpace(s[k]))
  }

  /** `s.trim()`: `s` with the white space at both ends removed; what is left
      neither starts nor ends with white space. */
  function Trim(s: string): (r: string)
    ensures exists i :: Encloses(s, r, i)
    ensures r != [] ==> !IsSpace(r[0]) && !IsSpace(r[|r| - 1])
  {
    var r := TrimEnd(TrimStart(s));
    TrimEncloses(s);
    TrimEnds(s);
    assert Encloses(s, r, |s| - |TrimStart(s)|);
    r
  }

  /** What is left after trimming both ends sits in `s` between white space. */
  lemma TrimEncloses(s: string)
    ensures Encloses(s, TrimEnd(TrimStart(s)), |s| - |TrimStart(s)|)
  {
    EnclosedTwice(s, TrimStart(s), TrimEnd(TrimStart(s)));
  }

  /** Cutting a white-space prefix off `s`, and then a white-space suffix off
      what is left, leaves a slice of `s` enclosed by white space. */
  lemma EnclosedTwice(s: string, front: string, r: string)
    requires |front| <= |s| && front == s[|s| - |front|..]
    requires forall k | 0 <= k < |s| - |front| :: IsSpace(s[k])
    requires |r| <= |front| && r == front[..|r|]
    requires forall k | |r| <= k < |front| :: IsSpace(front[k])
    ensures Encloses(s, r, |s| - |front|)
  {
    var i := |s| - |front|;
    assert forall k | i <= k < |s| :: s[k] == front[k - i];
  }

  /** What is left after trimming both ends neither starts nor ends with
      white space. */
  lemma TrimEnds(s: string)
    ensures TrimEnd(TrimStart(s)) != [] ==> !IsSpace(TrimEnd(TrimStart(s))[0])
  {
    var front := TrimStart(s);
    var r := TrimEnd(front);
    assert r != [] ==> front != [] && r[0] == front[0] && !IsSpace(front[0]);
  }

  /** Trimming leaves nothing exactly when every character is white space. */
  lemma TrimBlank(s: string)
    ensures TrimEnd(TrimStart(s)) == [] <==> forall k | 0 <= k < |s| :: IsSpace(s[k])
  {
    var r := TrimEnd(TrimStart(s));
    var i := |s| - |TrimStart(s)|;
    TrimEncloses(s);
    TrimEnds(s);
    if r != [] {
      assert r[0] == s[i] && !IsSpace(s[i]);
    }
  }

  /** `!s.trim()`: the string is empty or white space only. */
  predicate IsBlank(s: string)
    ensures IsBlank(s) <==> forall k | 0 <= k < |s| :: IsSpace(s[k])
  {
    TrimBlank(s);
    Trim(s) == ""
  }

  /** ASCII lower-casing of one character. */
  function LowerChar(c: char): (d: char)
    ensures 'A' <= c <= 'Z' ==> d as int == c as int + 32
    ensures !('A' <= c <= 'Z') ==> d == c
    ensures !('A' <= d <= 'Z')
  {
    if 'A' <= c <= 'Z' then (c as int - 'A' as int + 'a' as int) as char else c
  }

  /** `s.toLowerCase()`, restricted to ASCII letters. */
  function ToLower(s: string): (r: string)
    ensures |r| == |s|
    ensures forall i | 0 <= i < |s| :: r[i] == LowerChar(s[i])
  {
    seq(|s|, i requires 0 <= i < |s| => LowerChar(s[i]))
  }

  /** Lower-casing a lower-cased string changes nothing. */
  lemma ToLowerIdempotent(s: string)
    ensures ToLower(ToLower(s)) == ToLower(s)
  {
  }

  /** `p` is a prefix of `s`. */
  predicate IsPrefix(p: string, s: string)
  {
    |p| <= |s| && s[..|p|] == p
  }

  /** `s.includes(sub)`: `sub` occurs in `s` as a contiguous slice. */
  predicate Includes(s: string, sub: string)
    ensures Includes(s, sub) ==> |sub| <= |s|
    ensures |sub| <= |s| && s[..|sub|] == sub ==> Includes(s, sub)
    decreases |s|
  {
    IsPrefix(sub, s) || (s != [] && Includes(s[1..], sub))
  }

  /** `sub` occurs in `s` starting at position `i`. */
  predicate OccursAt(s: string, sub: string, i: int)
  {
    0 <= i && i + |sub| <= |s| && s[i..i + |sub|] == sub
  }

  /** `Includes` finds `sub` exactly when it starts at some position of `s`. */
  lemma {:induction false} IncludesIff(s: string, sub: string)
    ensures Includes(s, sub) <==> exists i :: OccursAt(s, sub, i)
    decreases |s|
  {
    if IsPrefix(sub, s) {
      assert OccursAt(s, sub, 0);
    } else if s == [] {
    } else {
      IncludesIff(s[1..], sub);
      if exists i :: OccursAt(s, sub, i) {
        var i :| OccursAt(s, sub, i);
        assert i != 0;
        assert OccursAt(s[1..], sub, i - 1);
      }
      if exists i :: OccursAt(s[1..], sub, i) {
        var i :| OccursAt(s[1..], sub, i);
        assert OccursAt(s, sub, i + 1);
      }
    }
  }

  /** The empty string is included in every string. */
  lemma IncludesEmpty(s: string)
    ensures Includes(s, "")
  {
    assert IsPrefix("", s);
  }
}
