/** Small value types shared by every part of the model. */
module Base {

  /** A value that may be absent (`null` / `undefined` in the application). */
  datatype Option<T> = None | Some(value: T)

  /** One field of a partial update: `Keep` is an `undefined` field, which the
      store leaves as it is; `Set(v)` overwrites the field with `v`. */
  datatype Patch<T> = Keep | Set(value: T)

  function Patched<T>(p: Patch<T>, current: T): (r: T)
    ensures p.Keep? ==> r == current
    ensures p.Set? ==> r == p.value
  {
    match p
    case Keep => current
    case Set(v) => v
  }

  function Min(a: int, b: int): int { if a <= b then a else b }

  function Max(a: int, b: int): int { if a <= b then b else a }

  /** Milliseconds in one day: dates are integers counted in milliseconds. */
  const MillisPerDay: int := 86_400_000

  /** `addDays(date, n)` of date-fns, on millisecond timestamps. */
  function AddDays(t: int, n: int): int { t + n * MillisPerDay }
}

/** The text primitives the application relies on: lower-casing, substring
    search, trimming and the ordering of strings. */
module Text {

  /** Lower-cases one character. It stands for the case folding of
      `toLowerCase` and of Prisma's `mode: 'insensitive'`; only A-Z are folded. */
  function LowerChar(c: char): char
  {
    if 'A' <= c <= 'Z' then (c as int + 32) as char else c
  }

  function Lower(s: string): (r: string)
    ensures |r| == |s|
  {
    seq(|s|, i requires 0 <= i < |s| => LowerChar(s[i]))
  }

  predicate IsPrefix(p: string, s: string)
  {
    |p| <= |s| && s[..|p|] == p
  }

  /** `s.includes(t)`, `contains` in a Prisma filter. */
  predicate Contains(s: string, t: string)
    decreases |s|
  {
    IsPrefix(t, s) || (s != [] && Contains(s[1..], t))
  }

  /** `t` occurs in `s` starting at position `i`. */
  predicate OccursAt(s: string, t: string, i: int)
  {
    0 <= i <= |s| - |t| && s[i..i + |t|] == t
  }

  /** Contains means that `t` occurs at some position of `s`. */
  lemma {:induction false} ContainsAt(s: string, t: string)
    ensures Contains(s, t) <==> exists i :: OccursAt(s, t, i)
    decreases |s|
  {
    if Contains(s, t) {
      if IsPrefix(t, s) {
        assert OccursAt(s, t, 0);
      } else {
        ContainsAt(s[1..], t);
        var i :| OccursAt(s[1..], t, i);
        assert s[i + 1..i + 1 + |t|] == s[1..][i..i + |t|];
        assert OccursAt(s, t, i + 1);
      }
    }
    if exists i :: OccursAt(s, t, i) {
      var i :| OccursAt(s, t, i);
      if i == 0 {
        assert s[..|t|] == t;
      } else {
        assert s[1..][i - 1..i - 1 + |t|] == s[i..i + |t|];
        assert OccursAt(s[1..], t, i - 1);
        ContainsAt(s[1..], t);
      }
    }
  }

  /** Every string contains the empty string. */
  lemma {:induction false} ContainsEmpty(s: string)
    ensures Contains(s, "")
  {
    assert IsPrefix("", s);
  }

  /** Case-insensitive containment, as the application performs it: both
      sides are lower-cased before the substring test. */
  predicate ContainsInsensitive(s: string, t: string)
  {
    Contains(Lower(s), Lower(t))
  }

  /** The characters `String.prototype.trim` removes: the ECMAScript white
      space (tab, vertical tab, form feed, the byte-order mark and every space
      separator of Unicode) and the line terminators. */
  predicate IsWhitespace(c: char)
  {
    c == '\t' || c == '\U{000B}' || c == '\U{000C}' || c == '\U{FEFF}'
    || c == ' ' || c == '\U{00A0}' || c == '\U{1680}' || '\U{2000}' <= c <= '\U{200A}'
    || c == '\U{202F}' || c == '\U{205F}' || c == '\U{3000}'
    || c == '\n' || c == '\r' || c == '\U{2028}' || c == '\U{2029}'
  }

  /** `s.length` in JavaScript: the number of UTF-16 code units, two for a
      character beyond the Basic Multilingual Plane. */
  function Utf16Length(s: string): (r: nat)
    ensures |s| <= r <= 2 * |s|
    decreases |s|
  {
    if s == [] then 0
    else
      assert forall i :: 0 <= i < |s[1..]| ==> s[1..][i] == s[i + 1];
      (if s[0] as int > 0xFFFF then 2 else 1) + Utf16Length(s[1..])
  }

  function TrimStart(s: string): (r: string)
    decreases |s|
  {
    if s != [] && IsWhitespace(s[0]) then TrimStart(s[1..]) else s
  }

  function TrimEnd(s: string): (r: string)
    decreases |s|
  {
    if s != [] && IsWhitespace(s[|s| - 1]) then TrimEnd(s[..|s| - 1]) else s
  }

  /** `s.trim()`. */
  function Trim(s: string): string
  {
    TrimEnd(TrimStart(s))
  }

  /** A string all of whose characters are white space. */
  predicate IsBlank(s: string)
  {
    forall i :: 0 <= i < |s| ==> IsWhitespace(s[i])
  }

  lemma {:induction false} TrimStartBlank(s: string)
    ensures TrimStart(s) == [] <==> IsBlank(s)
    decreases |s|
  {
    if s != [] && IsWhitespace(s[0]) {
      TrimStartBlank(s[1..]);
      assert forall i :: 0 < i < |s| ==> s[i] == s[1..][i - 1];
    }
  }

  lemma {:induction false} TrimEndEmpty(s: string)
    ensures TrimEnd(s) == [] <==> IsBlank(s)
    decreases |s|
  {
    if s != [] && IsWhitespace(s[|s| - 1]) {
      TrimEndEmpty(s[..|s| - 1]);
      assert forall i :: 0 <= i < |s| - 1 ==> s[i] == s[..|s| - 1][i];
    }
  }

  /** `s.trim() === ""` holds exactly for the strings made only of white
      space (the empty string included). */
  lemma TrimEmptyIffBlank(s: string)
    ensures Trim(s) == "" <==> IsBlank(s)
  {
    TrimStartBlank(s);
    TrimEndEmpty(TrimStart(s));
    TrimStartSuffix(s);
  }

  /** TrimStart removes a run of leading white space and nothing else. */
  lemma {:induction false} TrimStartSuffix(s: string)
    ensures |TrimStart(s)| <= |s|
    ensures TrimStart(s) == s[|s| - |TrimStart(s)|..]
    ensures forall i :: 0 <= i < |s| - |TrimStart(s)| ==> IsWhitespace(s[i])
    ensures TrimStart(s) != [] ==> !IsWhitespace(TrimStart(s)[0])
    decreases |s|
  {
    if s != [] && IsWhitespace(s[0]) {
      TrimStartSuffix(s[1..]);
      assert forall i :: 0 < i < |s| ==> s[i] == s[1..][i - 1];
    }
  }

  /** The truthiness test `query && query.trim() !== ""` of the search actions. */
  predicate HasSearchText(query: string)
  {
    query != "" && Trim(query) != ""
  }

  lemma HasSearchTextIffNotBlank(query: string)
    ensures HasSearchText(query) <==> !IsBlank(query)
  {
    TrimEmptyIffBlank(query);
  }

  /** A query of ideographic, em and ogham spaces is no search text, while a
      letter after them is. */
  lemma UnicodeSpacesAreBlank()
    ensures !HasSearchText("\U{3000}\U{2003}\U{1680} ")
    ensures HasSearchText("\U{3000}a")
  {
    HasSearchTextIffNotBlank("\U{3000}\U{2003}\U{1680} ");
    HasSearchTextIffNotBlank("\U{3000}a");
    assert !IsWhitespace("\U{3000}a"[1]);
  }

  /** Lexicographic order on strings, character by character (the order of
      JavaScript's `<` on strings and of an `orderBy ... 'asc'`). */
  predicate StrLe(a: string, b: string)
    decreases |a|
  {
    if a == [] then true
    else if b == [] then false
    else if a[0] != b[0] then a[0] < b[0]
    else StrLe(a[1..], b[1..])
  }

  /** Strictly before in the lexicographic order. */
  predicate StrLt(a: string, b: string)
  {
    StrLe(a, b) && a != b
  }

  lemma {:induction false} StrLeTotal(a: string, b: string)
    ensures StrLe(a, b) || StrLe(b, a)
    decreases |a|
  {
    if a != [] && b != [] && a[0] == b[0] {
      StrLeTotal(a[1..], b[1..]);
    }
  }

  lemma {:induction false} StrLeTransitive(a: string, b: string, c: string)
    requires StrLe(a, b) && StrLe(b, c)
    ensures StrLe(a, c)
    decreases |a|
  {
    if a != [] && b != [] && c != [] && a[0] == b[0] && b[0] == c[0] {
      StrLeTransitive(a[1..], b[1..], c[1..]);
    }
  }

  lemma {:induction false} StrLeAntisymmetric(a: string, b: string)
    requires StrLe(a, b) && StrLe(b, a)
    ensures a == b
    decreases |a|
  {
    if a != [] && b != [] {
      StrLeAntisymmetric(a[1..], b[1..]);
      assert a == [a[0]] + a[1..];
      assert b == [b[0]] + b[1..];
    }
  }
}
