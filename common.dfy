/** Values and string operations shared by the whole model: optional values,
    Python exceptions as results, bytes, and the handful of `str` methods the
    magetools core relies on. */
module Common {

  datatype Option<+T> = None | Some(value: T) {
    function GetOr(default: T): T {
      match this
      case Some(v) => v
      case None => default
    }
  }

  /** The outcome of a Python call that may raise: `Raised` carries the name
      of the exception that escaped. */
  datatype Result<+T> = Ok(value: T) | Raised(exception: string)

  type Byte = b: int | 0 <= b < 256

  /** A hexadecimal digest as `hashlib.md5(...).hexdigest()` returns it. */
  type Digest = string

  /** `s.startswith(prefix)`. */
  predicate StartsWith(s: string, prefix: string) {
    |prefix| <= |s| && s[..|prefix|] == prefix
  }

  /** `name.startswith((".", "_"))`: the hidden/private marker used for
      directories and files throughout the core. */
  predicate IsHiddenName(name: string) {
    |name| > 0 && (name[0] == '.' || name[0] == '_')
  }

  /** Python slicing `s[:n]` for a non-negative `n`. */
  function Take<T>(s: seq<T>, n: nat): (r: seq<T>)
    ensures |r| <= n && |r| <= |s|
    ensures |s| <= n ==> r == s
    ensures n <= |s| ==> |r| == n
    ensures r == s[..|r|]
  {
    if |s| <= n then s else s[..n]
  }

  /** `needle in haystack` for two strings (the empty string is in every string). */
  predicate IsSubstring(needle: string, haystack: string) {
    exists i | 0 <= i <= |haystack| :: OccursAt(haystack, i, needle)
  }

  /** `pat` occurs in `s` starting at index `i`. */
  predicate OccursAt(s: string, i: int, pat: string) {
    0 <= i && i + |pat| <= |s| && s[i..i + |pat|] == pat
  }

  /** `str.isspace()` for one character: the characters Python classifies as
      whitespace (bidirectional class WS, B or S, or category Zs). */
  predicate IsPyWhitespace(c: char) {
    || ('\U{9}' <= c <= '\U{d}') || ('\U{1c}' <= c <= '\U{20}')
    || c == '\U{85}' || c == '\U{a0}' || c == '\U{1680}'
    || ('\U{2000}' <= c <= '\U{200a}') || c == '\U{2028}' || c == '\U{2029}'
    || c == '\U{202f}' || c == '\U{205f}' || c == '\U{3000}'
  }

  /** `not s.strip()`: the string is empty or made only of whitespace. */
  predicate IsBlank(s: string) {
    forall i :: 0 <= i < |s| ==> IsPyWhitespace(s[i])
  }

  /** `s.split(sep)` for a one-character separator. */
  function Split(s: string, sep: char): (parts: seq<string>)
    ensures |parts| >= 1
    ensures forall i :: 0 <= i < |parts| ==> sep !in parts[i]
    decreases |s|
  {
    if |s| == 0 then [""]
    else
      var rest := Split(s[1..], sep);
      if s[0] == sep then [""] + rest
      else [[s[0]] + rest[0]] + rest[1..]
  }

  /** The UTF-8 encoding of a string, as `str.encode()` produces it. The
      core only feeds these bytes to md5, so the contract states no more
      than the length bound; that the bytes are a function of the text is
      all the content hash relies on. */
  function Utf8(s: string): (bytes: seq<Byte>)
    ensures |bytes| >= |s|
  {
    if |s| == 0 then []
    else Utf8Char(s[0]) + Utf8(s[1..])
  }

  /** The one to four UTF-8 bytes of one code point. */
  function Utf8Char(c: char): (bytes: seq<Byte>)
    ensures 1 <= |bytes| <= 4
  {
    var n := c as int;
    if n < 0x80 then [n]
    else if n < 0x800 then [0xC0 + n / 0x40, 0x80 + n % 0x40]
    else if n < 0x10000 then [0xE0 + n / 0x1000, 0x80 + (n / 0x40) % 0x40, 0x80 + n % 0x40]
    else [0xF0 + n / 0x40000, 0x80 + (n / 0x1000) % 0x40, 0x80 + (n / 0x40) % 0x40, 0x80 + n % 0x40]
  }

  /** Concatenation regrouped; used where a proof needs the two groupings
      of a three-part feed to meet. */
  lemma AppendAssoc<T>(x: seq<T>, y: seq<T>, z: seq<T>)
    ensures x + (y + z) == x + y + z
  {
  }

  /** Splitting on a separator that does not occur in a segment: the parts
      of `a + [sep] + b` are the part `a` followed by the parts of `b`. */
  lemma {:induction false} SplitJoin(a: string, sep: char, b: string)
    requires sep !in a
    ensures Split(a + [sep] + b, sep) == [a] + Split(b, sep)
    decreases |a|
  {
    if |a| == 0 {
      assert a + [sep] + b == [sep] + b;
      assert ([sep] + b)[1..] == b;
    } else {
      var s := a + [sep] + b;
      assert s[1..] == a[1..] + [sep] + b;
      SplitJoin(a[1..], sep, b);
      assert [a[0]] + a[1..] == a;
    }
  }

  /** The third part of a string whose first three segments have no
      separator is the third segment. */
  lemma SplitThird(a: string, b: string, c: string, rest: string, sep: char)
    requires sep !in a && sep !in b && sep !in c
    ensures |Split(a + [sep] + b + [sep] + c + [sep] + rest, sep)| >= 3
    ensures Split(a + [sep] + b + [sep] + c + [sep] + rest, sep)[2] == c
  {
    var inner := c + [sep] + rest;
    var middle := b + [sep] + inner;
    assert a + [sep] + b + [sep] + c + [sep] + rest == a + [sep] + middle;
    SplitJoin(a, sep, middle);
    SplitJoin(b, sep, inner);
    SplitJoin(c, sep, rest);
  }

  /** A name made of a two-segment prefix, a segment and a rest starts with
      the prefix, and its third part is that segment. */
  lemma PrefixedThird(a: string, b: string, prefix: string, c: string, rest: string, sep: char)
    requires sep !in a && sep !in b && sep !in c
    requires prefix == a + [sep] + b + [sep]
    ensures StartsWith(prefix + c + [sep] + rest, prefix)
    ensures |Split(prefix + c + [sep] + rest, sep)| >= 3
    ensures Split(prefix + c + [sep] + rest, sep)[2] == c
  {
    var s := prefix + c + [sep] + rest;
    assert s[..|prefix|] == prefix;
    assert s == a + [sep] + b + [sep] + c + [sep] + rest;
    SplitThird(a, b, c, rest, sep);
  }

  /** Splitting a string that has no separator gives the string itself. */
  lemma {:induction false} SplitNoSep(a: string, sep: char)
    requires sep !in a
    ensures Split(a, sep) == [a]
    decreases |a|
  {
    if |a| > 0 {
      SplitNoSep(a[1..], sep);
      assert [a[0]] + a[1..] == a;
    }
  }

  /** A second update of the same key overrides the first. */
  lemma UpdateTwice<K, V>(m: map<K, V>, k: K, v1: V, v2: V)
    ensures m[k := v1][k := v2] == m[k := v2]
  {
  }
}
