/**
 * Request fields and JavaScript's String.prototype.trim.
 *
 * A field of a JSON request body is either left out (undefined or null) or a
 * string. The controllers test fields for JavaScript truthiness (`!name`,
 * `title ? ... : ''`): a string field is truthy exactly when it is present and
 * non-empty.
 */
module Text {

  datatype Option<+T> = None | Some(value: T)

  /** A string-valued request field; None when the client left it out. */
  type Field = Option<string>

  /** JavaScript truthiness of a string-valued field. */
  predicate Truthy(f: Field) {
    f.Some? && f.value != ""
  }

  /** The characters `trim` removes: ECMAScript WhiteSpace and LineTerminator. */
  predicate IsWhitespace(c: char) {
    || c == '\t' || c == '\n' || c == '\U{000B}' || c == '\U{000C}' || c == '\r'
    || c == ' ' || c == '\U{00A0}' || c == '\U{1680}'
    || ('\U{2000}' <= c <= '\U{200A}')
    || c == '\U{2028}' || c == '\U{2029}' || c == '\U{202F}' || c == '\U{205F}'
    || c == '\U{3000}' || c == '\U{FEFF}'
  }

  predicate AllWhitespace(s: string) {
    forall k :: 0 <= k < |s| ==> IsWhitespace(s[k])
  }

  /** No whitespace at either end: what `trim` returns, and what it leaves alone. */
  predicate IsTrimmed(s: string) {
    s == [] || (!IsWhitespace(s[0]) && !IsWhitespace(s[|s| - 1]))
  }

  /** `s` with its leading whitespace removed. */
  function TrimStart(s: string): (r: string)
    ensures |r| <= |s|
  {
    if s != [] && IsWhitespace(s[0]) then TrimStart(s[1..]) else s
  }

  /** `s` with its trailing whitespace removed. */
  function TrimEnd(s: string): (r: string)
    ensures |r| <= |s|
  {
    if s != [] && IsWhitespace(s[|s| - 1]) then TrimEnd(s[..|s| - 1]) else s
  }

  /** `s.trim()`. */
  function Trim(s: string): (r: string)
    ensures |r| <= |s|
  {
    TrimEnd(TrimStart(s))
  }

  /** TrimStart removes a whitespace-only prefix and leaves a suffix that does not start with whitespace. */
  lemma {:induction false} TrimStartSpec(s: string)
    ensures TrimStart(s) == s[|s| - |TrimStart(s)|..]
    ensures AllWhitespace(s[..|s| - |TrimStart(s)|])
    ensures TrimStart(s) != [] ==> !IsWhitespace(TrimStart(s)[0])
  {
    if s != [] && IsWhitespace(s[0]) {
      TrimStartSpec(s[1..]);
      var n := |s| - |TrimStart(s)|;
      assert s[..n] == [s[0]] + s[1..][..n - 1];
    }
  }

  /** TrimEnd removes a whitespace-only suffix and leaves a prefix that does not end with whitespace. */
  lemma {:induction false} TrimEndSpec(s: string)
    ensures TrimEnd(s) == s[..|TrimEnd(s)|]
    ensures AllWhitespace(s[|TrimEnd(s)|..])
    ensures TrimEnd(s) != [] ==> !IsWhitespace(TrimEnd(s)[|TrimEnd(s)| - 1])
  {
    if s != [] && IsWhitespace(s[|s| - 1]) {
      var t := s[..|s| - 1];
      TrimEndSpec(t);
      var n := |TrimEnd(s)|;
      assert s[n..] == t[n..] + [s[|s| - 1]];
    }
  }

  /**
   * `s.trim()` is the piece of `s` left between a whitespace-only prefix and
   * a whitespace-only suffix, with no whitespace at either end; it is empty
   * exactly when `s` is all whitespace.
   */
  lemma {:induction false} TrimSpec(s: string)
    ensures IsTrimmed(Trim(s))
    ensures Trim(s) == [] <==> AllWhitespace(s)
    ensures var i := |s| - |TrimStart(s)|;
      && i + |Trim(s)| <= |s|
      && Trim(s) == s[i..i + |Trim(s)|]
      && AllWhitespace(s[..i]) && AllWhitespace(s[i + |Trim(s)|..])
  {
    var t := TrimStart(s);
    TrimStartSpec(s);
    TrimEndSpec(t);
    WhitespaceSplit(s, |s| - |t|);
    var r := Trim(s);
    if r != [] {
      assert r[0] == t[0];
    } else {
      assert t[|r|..] == t;
    }
    var i := |s| - |t|;
    assert r == s[i..i + |r|];
    assert s[i + |r|..] == t[|r|..];
  }

  /** A string is all whitespace when both parts of any split of it are. */
  lemma WhitespaceSplit(s: string, i: nat)
    requires i <= |s|
    ensures AllWhitespace(s) <==> AllWhitespace(s[..i]) && AllWhitespace(s[i..])
  {
    assert forall k :: 0 <= k < i ==> s[..i][k] == s[k];
    assert forall k :: i <= k < |s| ==> s[i..][k - i] == s[k];
  }

  /**
   * A string with no whitespace at either end is left alone; in particular
   * trimming a trimmed string changes nothing.
   */
  lemma {:induction false} TrimFixedPoint(s: string)
    ensures IsTrimmed(s) ==> Trim(s) == s
    ensures Trim(Trim(s)) == Trim(s)
  {
    if s != [] && IsTrimmed(s) {
      assert TrimStart(s) == s;
      assert TrimEnd(s) == s;
    }
    var r := Trim(s);
    TrimSpec(s);
    if r != [] {
      assert TrimStart(r) == r;
      assert TrimEnd(r) == r;
    }
  }

  /** `f ? f.trim() : ''`: the trimmed field, or '' for a falsy one. */
  function TrimmedOrEmpty(f: Field): (r: string)
    ensures f.Some? ==> r == Trim(f.value)
    ensures f.None? ==> r == []
    ensures IsTrimmed(r)
    ensures r == [] <==> f.None? || AllWhitespace(f.value)
  {
    if Truthy(f) then TrimSpec(f.value); Trim(f.value) else ""
  }
}
