/** The part of `java.lang.String` the URL checks rely on: `trim()`, which
    strips every leading and trailing character at or below U+0020. */
module JavaText {

  /** A character `trim()` removes from either end. */
  predicate IsTrimmed(c: char) {
    c <= ' '
  }

  function TrimLeading(s: string): (r: string)
    ensures |r| <= |s| && r == s[|s| - |r|..]
    ensures r != [] ==> !IsTrimmed(r[0])
    ensures forall i :: 0 <= i < |s| - |r| ==> IsTrimmed(s[i])
  {
    if s != [] && IsTrimmed(s[0]) then TrimLeading(s[1..]) else s
  }

  function TrimTrailing(s: string): (r: string)
    ensures |r| <= |s| && r == s[..|r|]
    ensures r != [] ==> !IsTrimmed(r[|r| - 1])
    ensures forall i :: |r| <= i < |s| ==> IsTrimmed(s[i])
  {
    if s != [] && IsTrimmed(s[|s| - 1]) then TrimTrailing(s[..|s| - 1]) else s
  }

  /** `r` is the slice of `s` at `i`, and everything outside it is trimmable. */
  predicate TrimmedSliceAt(r: string, s: string, i: int) {
    0 <= i <= |s| - |r| && r == s[i..i + |r|]
    && (forall k :: 0 <= k < i ==> IsTrimmed(s[k]))
    && (forall k :: i + |r| <= k < |s| ==> IsTrimmed(s[k]))
  }

  /** `s.trim()`: the slice of `s` left once the trimmable characters at both
      ends are gone; it starts and ends with a character that is kept. */
  function Trim(s: string): (r: string)
    ensures r != [] ==> !IsTrimmed(r[0]) && !IsTrimmed(r[|r| - 1])
    ensures exists i :: TrimmedSliceAt(r, s, i)
  {
    var lead := TrimLeading(s);
    var r := TrimTrailing(lead);
    var i := |s| - |lead|;
    assert TrimmedSliceAt(r, s, i);
    r
  }

  /** `s.trim().isEmpty()`. */
  predicate IsBlank(s: string) {
    Trim(s) == []
  }

  /** A string is blank exactly when every one of its characters is trimmable. */
  lemma BlankIff(s: string)
    ensures IsBlank(s) <==> forall k :: 0 <= k < |s| ==> IsTrimmed(s[k])
  {
    if !IsBlank(s) {
      var r := Trim(s);
      var i :| TrimmedSliceAt(r, s, i);
      assert s[i] == r[0];
    }
  }
}
