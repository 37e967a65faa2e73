/**
 * A stand-in for bcrypt's `hash` and `compare`.
 *
 * bcrypt hashes the UTF-8 bytes of a password, read as a C string up to
 * its first U+0000, of which it keeps only the first 72. The real hash is
 * also salted and one-way; neither can be stated over values, so the
 * stand-in keeps what the controllers rely on: `Compare` accepts a password
 * against a hash exactly when the two passwords agree on those bytes.
 */
module Password {

  /** The algorithm-and-cost header bcrypt writes at cost 10. */
  const HASH_PREFIX: string := "$2b$10$"

  /** How many bytes of a password bcrypt reads. */
  const KEY_BYTES: nat := 72

  type byte = x: int | 0 <= x < 0x100

  /** The UTF-8 encoding of one character. */
  function EncodeChar(c: char): (b: seq<byte>)
    ensures 1 <= |b| <= 4
    ensures (c as int < 0x80) <==> |b| == 1
  {
    var n := c as int;
    if n < 0x80 then [n]
    else if n < 0x800 then [0xC0 + n / 0x40, 0x80 + n % 0x40]
    else if n < 0x1_0000 then [0xE0 + n / 0x1000, 0x80 + n / 0x40 % 0x40, 0x80 + n % 0x40]
    else [0xF0 + n / 0x4_0000, 0x80 + n / 0x1000 % 0x40, 0x80 + n / 0x40 % 0x40, 0x80 + n % 0x40]
  }

  /** How many bytes the character whose encoding starts with `lead` takes. */
  function SequenceLength(lead: byte): nat {
    if lead < 0x80 then 1 else if lead < 0xE0 then 2 else if lead < 0xF0 then 3 else 4
  }

  /** The code point an encoded character stands for. */
  function DecodeChar(b: seq<byte>): int
    requires 1 <= |b| <= 4
  {
    if |b| == 1 then b[0]
    else if |b| == 2 then (b[0] as int - 0xC0) * 0x40 + (b[1] as int - 0x80)
    else if |b| == 3 then (b[0] as int - 0xE0) * 0x1000 + (b[1] as int - 0x80) * 0x40 + (b[2] as int - 0x80)
    else (b[0] as int - 0xF0) * 0x4_0000 + (b[1] as int - 0x80) * 0x1000 + (b[2] as int - 0x80) * 0x40 + (b[3] as int - 0x80)
  }

  /** An encoded character announces its own length in its first byte and decodes back to itself. */
  lemma EncodeCharDecodes(c: char)
    ensures |EncodeChar(c)| == SequenceLength(EncodeChar(c)[0])
    ensures DecodeChar(EncodeChar(c)) == c as int
  {
    var n := c as int;
    if 0x800 <= n < 0x1_0000 {
      assert n / 0x40 == n / 0x1000 * 0x40 + n / 0x40 % 0x40;
    } else if 0x1_0000 <= n {
      assert n / 0x40 == n / 0x1000 * 0x40 + n / 0x40 % 0x40;
      assert n / 0x1000 == n / 0x4_0000 * 0x40 + n / 0x1000 % 0x40;
    }
  }

  /** The UTF-8 encoding of a string: the bytes bcrypt is given. */
  function Utf8(s: string): (b: seq<byte>)
    ensures |s| <= |b| <= 4 * |s|
  {
    if s == [] then [] else EncodeChar(s[0]) + Utf8(s[1..])
  }

  /** Encoding a concatenation concatenates the encodings. */
  lemma {:induction false} Utf8Append(s: string, t: string)
    ensures Utf8(s + t) == Utf8(s) + Utf8(t)
  {
    if s == [] {
      assert s + t == t;
    } else {
      assert (s + t)[1..] == s[1..] + t;
      Utf8Append(s[1..], t);
    }
  }

  /** Different strings have different encodings. */
  lemma {:induction false} Utf8Injective(s: string, t: string)
    requires Utf8(s) == Utf8(t)
    ensures s == t
  {
    if s != [] && t != [] {
      var a, b := EncodeChar(s[0]), EncodeChar(t[0]);
      EncodeCharDecodes(s[0]);
      EncodeCharDecodes(t[0]);
      assert a[0] == Utf8(s)[0] == b[0];
      assert Utf8(s)[..|a|] == a && Utf8(t)[..|b|] == b;
      assert Utf8(s[1..]) == Utf8(s)[|a|..] == Utf8(t)[|b|..] == Utf8(t[1..]);
      Utf8Injective(s[1..], t[1..]);
    }
  }

  /**
   * A password as the C implementation reads it: up to, not including, its
   * first U+0000, whose encoding is the one zero byte UTF-8 produces.
   */
  function BeforeNul(s: string): (r: string)
    ensures '\0' !in r
    ensures |r| <= |s| && r == s[..|r|]
    ensures |r| < |s| ==> s[|r|] == '\0'
  {
    if s == [] || s[0] == '\0' then [] else [s[0]] + BeforeNul(s[1..])
  }

  /** Reading a concatenation stops in its first part exactly when that part holds a U+0000. */
  lemma {:induction false} BeforeNulAppend(s: string, t: string)
    ensures BeforeNul(s + t) == if '\0' in s then BeforeNul(s) else s + BeforeNul(t)
  {
    if s == [] {
      assert s + t == t;
    } else {
      assert (s + t)[0] == s[0];
      assert (s + t)[1..] == s[1..] + t;
      BeforeNulAppend(s[1..], t);
      if s[0] != '\0' {
        assert '\0' in s <==> '\0' in s[1..];
        assert [s[0]] + s[1..] == s;
      }
    }
  }

  /** A password without U+0000 is read whole. */
  lemma {:induction false} BeforeNulWhole(s: string)
    requires '\0' !in s
    ensures BeforeNul(s) == s
  {
    if s != [] {
      assert '\0' !in s[1..];
      BeforeNulWhole(s[1..]);
      assert [s[0]] + s[1..] == s;
    }
  }

  /**
   * The part of a password bcrypt hashes: the first 72 bytes of the encoding
   * of what it reads, or all of them.
   */
  function Key(password: string): (k: seq<byte>)
    ensures var b := Utf8(BeforeNul(password));
      && |k| == (if |b| <= KEY_BYTES then |b| else KEY_BYTES)
      && k == b[..|k|]
  {
    var b := Utf8(BeforeNul(password));
    if |b| <= KEY_BYTES then b else b[..KEY_BYTES]
  }

  /** `bcrypt.hash(password, 10)` with a fixed salt: the header, then the key, one character per byte. */
  function Hash(password: string): (h: string)
    ensures |HASH_PREFIX| <= |h| && h[..|HASH_PREFIX|] == HASH_PREFIX
  {
    var k := Key(password);
    HASH_PREFIX + seq(|k|, i requires 0 <= i < |k| => k[i] as char)
  }

  /** `bcrypt.compare(password, hash)`. */
  predicate Compare(password: string, hash: string) {
    hash == Hash(password)
  }

  /** A password matches the hash of a password exactly when their keys are equal. */
  lemma {:induction false} CompareHash(password: string, other: string)
    ensures Compare(password, Hash(other)) <==> Key(password) == Key(other)
  {
    if Compare(password, Hash(other)) {
      var a, b := Key(password), Key(other);
      var n := |HASH_PREFIX|;
      assert |a| == |Hash(password)| - n == |b|;
      forall i | 0 <= i < |a| ensures a[i] == b[i] {
        assert Hash(password)[n + i] == a[i] as char;
        assert Hash(other)[n + i] == b[i] as char;
      }
    }
  }

  /**
   * Whatever follows 72 bytes of a password is ignored: two passwords that
   * share a prefix of at least 72 bytes match each other's hash.
   */
  lemma {:induction false} CompareIgnoresTail(prefix: string, tail: string, otherTail: string)
    requires |Utf8(prefix)| >= KEY_BYTES
    ensures Compare(prefix + tail, Hash(prefix + otherTail))
  {
    BeforeNulAppend(prefix, tail);
    BeforeNulAppend(prefix, otherTail);
    if '\0' !in prefix {
      var a, b := BeforeNul(prefix + tail), BeforeNul(prefix + otherTail);
      Utf8Append(prefix, BeforeNul(tail));
      Utf8Append(prefix, BeforeNul(otherTail));
      assert Utf8(a)[..KEY_BYTES] == Utf8(prefix)[..KEY_BYTES] == Utf8(b)[..KEY_BYTES];
    }
    assert Key(prefix + tail) == Key(prefix + otherTail);
    CompareHash(prefix + tail, prefix + otherTail);
  }

  /** Whatever follows a U+0000 in a password is ignored. */
  lemma CompareStopsAtNul(password: string, tail: string)
    ensures Compare(password + ['\0'] + tail, Hash(password))
    ensures Compare(password, Hash(password + ['\0'] + tail))
  {
    BeforeNulAppend(password, ['\0'] + tail);
    assert password + ['\0'] + tail == password + (['\0'] + tail);
    assert BeforeNul(['\0'] + tail) == [];
    if '\0' !in password {
      BeforeNulWhole(password);
    }
    CompareHash(password + ['\0'] + tail, password);
    CompareHash(password, password + ['\0'] + tail);
  }

  /**
   * Passwords of at most 72 bytes match each other's hash exactly when they
   * agree up to their first U+0000; without one, exactly when they are equal.
   */
  lemma {:induction false} CompareShortPasswords(password: string, other: string)
    requires |Utf8(password)| <= KEY_BYTES && |Utf8(other)| <= KEY_BYTES
    ensures Compare(password, Hash(other)) <==> BeforeNul(password) == BeforeNul(other)
    ensures '\0' !in password && '\0' !in other ==> (Compare(password, Hash(other)) <==> password == other)
  {
    ReadPartIsShorter(password);
    ReadPartIsShorter(other);
    CompareHash(password, other);
    if Key(password) == Key(other) {
      Utf8Injective(BeforeNul(password), BeforeNul(other));
    }
    if '\0' !in password && '\0' !in other {
      BeforeNulWhole(password);
      BeforeNulWhole(other);
    }
  }

  /** The part of a password bcrypt reads encodes to no more bytes than the password. */
  lemma ReadPartIsShorter(s: string)
    ensures |Utf8(BeforeNul(s))| <= |Utf8(s)|
  {
    var r := BeforeNul(s);
    assert s == r + s[|r|..];
    Utf8Append(r, s[|r|..]);
  }
}
