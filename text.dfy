/** The string operations the reconciliation code borrows from Python: `str.strip()`,
    `str.replace(c, '')`, `str.split(sep)`, the ordering `<` on `str`, and the three regular
    expressions of sync_manager.py written out as character-class predicates. */
module Text {

  /** Python regex `\d`, restricted to ASCII digits. */
  predicate IsDigit(c: char) {
    '0' <= c <= '9'
  }

  /** Python `str.isspace()`: exactly the characters `str.strip()` removes by default. */
  predicate IsSpace(c: char) {
    || '\t' <= c <= '\r'
    || '\U{1c}' <= c <= '\U{1f}'
    || c == ' '
    || c == '\U{85}'
    || c == '\U{a0}'
    || c == '\U{1680}'
    || '\U{2000}' <= c <= '\U{200a}'
    || c == '\U{2028}'
    || c == '\U{2029}'
    || c == '\U{202f}'
    || c == '\U{205f}'
    || c == '\U{3000}'
  }

  /** `s.lstrip()`: the longest suffix of `s` that does not start with whitespace. */
  function TrimStart(s: string): (r: string)
    ensures |r| <= |s| && r == s[|s| - |r|..]
    ensures forall i :: 0 <= i < |s| - |r| ==> IsSpace(s[i])
    ensures r != [] ==> !IsSpace(r[0])
  {
    if s != [] && IsSpace(s[0]) then TrimStart(s[1..]) else s
  }

  /** `s.rstrip()`: the longest prefix of `s` that does not end with whitespace. */
  function TrimEnd(s: string): (r: string)
    ensures |r| <= |s| && r == s[..|r|]
    ensures forall i :: |r| <= i < |s| ==> IsSpace(s[i])
    ensures r != [] ==> !IsSpace(r[|r| - 1])
  {
    if s != [] && IsSpace(s[|s| - 1]) then TrimEnd(s[..|s| - 1]) else s
  }

  /** `s.strip()`: `s` without its leading and trailing whitespace. */
  function Strip(s: string): (r: string)
    ensures |r| <= |s|
    ensures r != [] ==> !IsSpace(r[0]) && !IsSpace(r[|r| - 1])
    ensures (s == [] || (!IsSpace(s[0]) && !IsSpace(s[|s| - 1]))) ==> r == s
  {
    TrimEnd(TrimStart(s))
  }

  /** Stripping twice is stripping once. */
  lemma StripIdempotent(s: string)
    ensures Strip(Strip(s)) == Strip(s)
  {
  }

  /** Everything `Strip` removes is whitespace and what it keeps is a contiguous piece of `s`. */
  lemma StripKeepsInfix(s: string)
    ensures var r := Strip(s); var i := |s| - |TrimStart(s)|;
      && i + |r| <= |s|
      && r == s[i..i + |r|]
      && (forall k :: 0 <= k < i ==> IsSpace(s[k]))
      && (forall k :: i + |r| <= k < |s| ==> IsSpace(s[k]))
  {
    var t := TrimStart(s);
    var i := |s| - |t|;
    assert t == s[i..];
    var r := TrimEnd(t);
    assert r == t[..|r|];
    forall k | i + |r| <= k < |s| ensures IsSpace(s[k]) {
      assert s[k] == t[k - i];
    }
  }

  /** `s.replace(c, '')`. How often each character survives is `RemoveCharCounts`, and that
      the survivors keep their order is `RemoveCharAppend`. */
  function RemoveChar(s: string, c: char): (r: string)
    ensures c !in r
    ensures |r| <= |s|
    ensures forall x :: x != c ==> (x in r <==> x in s)
    ensures c !in s ==> r == s
  {
    if s == [] then []
    else if s[0] == c then RemoveChar(s[1..], c)
    else [s[0]] + RemoveChar(s[1..], c)
  }

  /** Every occurrence of `c` goes; every other character stays exactly as often as it was
      there. */
  lemma {:induction false} RemoveCharCounts(s: string, c: char)
    ensures multiset(RemoveChar(s, c)) == multiset(s)[c := 0]
  {
    if s != [] {
      assert s == [s[0]] + s[1..];
      RemoveCharCounts(s[1..], c);
    }
  }

  /** Removing a character works piece by piece: it never reaches across the join. */
  lemma {:induction false} RemoveCharAppend(a: string, b: string, c: char)
    ensures RemoveChar(a + b, c) == RemoveChar(a, c) + RemoveChar(b, c)
  {
    if a != [] {
      var ab := a + b;
      assert ab[0] == a[0] && ab[1..] == a[1..] + b;
      RemoveCharAppend(a[1..], b, c);
      if a[0] != c {
        assert RemoveChar(ab, c) == [a[0]] + RemoveChar(a[1..] + b, c);
        assert RemoveChar(a, c) == [a[0]] + RemoveChar(a[1..], c);
      }
    } else {
      assert a + b == b;
    }
  }

  /** `sep.join(parts)`. */
  function Join(parts: seq<string>, sep: char): string
  {
    if parts == [] then ""
    else if |parts| == 1 then parts[0]
    else parts[0] + [sep] + Join(parts[1..], sep)
  }

  /** `s.split(sep)` for a one-character separator: never empty, no piece holds `sep`,
      and joining the pieces gives `s` back. */
  function Split(s: string, sep: char): (parts: seq<string>)
    ensures |parts| >= 1
    ensures forall i :: 0 <= i < |parts| ==> sep !in parts[i]
    ensures Join(parts, sep) == s
  {
    if s == [] then [""]
    else
      var rest := Split(s[1..], sep);
      if s[0] == sep then [""] + rest
      else [[s[0]] + rest[0]] + rest[1..]
  }

  /** A string without the separator splits into itself alone. */
  lemma {:induction false} SplitWithoutSeparator(s: string, sep: char)
    requires sep !in s
    ensures Split(s, sep) == [s]
    decreases |s|
  {
    if s != [] {
      assert forall c :: c in s[1..] ==> c in s;
      SplitWithoutSeparator(s[1..], sep);
      assert [s[0]] + s[1..] == s;
    }
  }

  /** The other direction of the round trip: splitting a join of separator-free pieces
      gives the pieces back. */
  lemma {:induction false} SplitJoin(parts: seq<string>, sep: char)
    requires |parts| >= 1
    requires forall i :: 0 <= i < |parts| ==> sep !in parts[i]
    ensures Split(Join(parts, sep), sep) == parts
    decreases |parts|, |parts[0]|
  {
    var p := parts[0];
    if |parts| == 1 {
      if p != [] {
        SplitJoin([p[1..]], sep);
        assert Split(p, sep) == [[p[0]] + p[1..]];
      }
    } else {
      var tail := Join(parts[1..], sep);
      assert Join(parts, sep) == p + [sep] + tail;
      if p == [] {
        SplitJoin(parts[1..], sep);
        assert ([] + [sep] + tail)[1..] == tail;
      } else {
        var shorter := [p[1..]] + parts[1..];
        assert shorter[1..] == parts[1..];
        assert Join(shorter, sep) == p[1..] + [sep] + tail;
        SplitJoin(shorter, sep);
        assert (p + [sep] + tail)[1..] == p[1..] + [sep] + tail;
        assert [p[0]] + p[1..] == p;
        assert [p] + parts[1..] == parts;
      }
    }
  }

  /** Python's `a < b` on `str`: lexicographic comparison of code points. */
  predicate LexLess(a: string, b: string)
  {
    if a == [] then b != []
    else if b == [] then false
    else if a[0] != b[0] then a[0] < b[0]
    else LexLess(a[1..], b[1..])
  }

  /** `<` on strings is a strict total order: for any two strings exactly one of
      `a < b`, `a == b`, `b < a` holds. */
  lemma {:induction false} LexLessTrichotomy(a: string, b: string)
    ensures LexLess(a, b) || a == b || LexLess(b, a)
    ensures !(LexLess(a, b) && LexLess(b, a))
    ensures !LexLess(a, a)
  {
    if a != [] && b != [] && a[0] == b[0] {
      LexLessTrichotomy(a[1..], b[1..]);
      if a[1..] == b[1..] {
        assert a == [a[0]] + a[1..] && b == [b[0]] + b[1..];
      }
    }
    if a != [] {
      LexLessTrichotomy(a[1..], a[1..]);
    }
  }

  /** `<` on strings is transitive. */
  lemma {:induction false} LexLessTransitive(a: string, b: string, c: string)
    requires LexLess(a, b) && LexLess(b, c)
    ensures LexLess(a, c)
  {
    if a != [] && a[0] == b[0] && b[0] == c[0] {
      LexLessTransitive(a[1..], b[1..], c[1..]);
    }
  }

  /** Two ASCII digits at `s[i]`, `s[i+1]`. */
  predicate Digits2(s: string, i: nat)
    requires i + 2 <= |s|
  {
    IsDigit(s[i]) && IsDigit(s[i + 1])
  }

  /** Four ASCII digits from `s[i]` on. */
  predicate Digits4(s: string, i: nat)
    requires i + 4 <= |s|
  {
    Digits2(s, i) && Digits2(s, i + 2)
  }

  /** `re.match(r'^\d{4}-\d{2}-\d{2}', s)`: `s` starts with an ISO date. */
  predicate StartsWithIsoDate(s: string)
  {
    |s| >= 10 && Digits4(s, 0) && s[4] == '-' && Digits2(s, 5) && s[7] == '-' && Digits2(s, 8)
  }

  /** `DD.MM.YYYY` and nothing else. */
  predicate DottedDateExact(s: string)
  {
    |s| == 10 && Digits2(s, 0) && s[2] == '.' && Digits2(s, 3) && s[5] == '.' && Digits4(s, 6)
  }

  /** `re.match(r'^(\d{2})\.(\d{2})\.(\d{4})$', s)`. Python's `$` also matches just before a
      final newline, so one trailing "\n" is accepted. */
  predicate DottedDateMatch(s: string)
  {
    DottedDateExact(s) || (|s| == 11 && s[10] == '\n' && DottedDateExact(s[..10]))
  }

  /** The number of ASCII digits `s` starts with. */
  function LeadingDigits(s: string): (n: nat)
    ensures n <= |s|
    ensures forall i :: 0 <= i < n ==> IsDigit(s[i])
    ensures n < |s| ==> !IsDigit(s[n])
  {
    if s != [] && IsDigit(s[0]) then 1 + LeadingDigits(s[1..]) else 0
  }

  /** `([+-]\d{2}:?\d{2}|Z)?` matching all of `z`. */
  predicate ZoneSuffix(z: string)
  {
    || z == ""
    || z == "Z"
    || (|z| == 5 && (z[0] == '+' || z[0] == '-') && Digits2(z, 1) && Digits2(z, 3))
    || (|z| == 6 && (z[0] == '+' || z[0] == '-') && Digits2(z, 1) && z[3] == ':' && Digits2(z, 4))
  }

  /** `(\.\d+)?([+-]\d{2}:?\d{2}|Z)?` matching all of `t`. The fraction's digit run is greedy,
      and a zone never starts with a digit, so the run must be maximal. */
  predicate TimestampTail(t: string)
  {
    if t != [] && t[0] == '.' then
      var n := LeadingDigits(t[1..]);
      n >= 1 && ZoneSuffix(t[1 + n..])
    else ZoneSuffix(t)
  }

  /** `\d{4}-\d{2}-\d{2}[T ]\d{2}:\d{2}:\d{2}(\.\d+)?([+-]\d{2}:?\d{2}|Z)?` matching all of `s`. */
  predicate IsoTimestampExact(s: string)
  {
    && |s| >= 19
    && Digits4(s, 0) && s[4] == '-' && Digits2(s, 5) && s[7] == '-' && Digits2(s, 8)
    && (s[10] == 'T' || s[10] == ' ')
    && Digits2(s, 11) && s[13] == ':' && Digits2(s, 14) && s[16] == ':' && Digits2(s, 17)
    && TimestampTail(s[19..])
  }

  /** `ts_regex.match(s)` with the pattern anchored by `^` and `$` (again one trailing
      newline is accepted by `$`). */
  predicate IsoTimestampMatch(s: string)
  {
    IsoTimestampExact(s) || (|s| > 0 && s[|s| - 1] == '\n' && IsoTimestampExact(s[..|s| - 1]))
  }

  /** A date-only value is never a valid timestamp: the pattern needs the time of day. */
  lemma DateIsNotTimestamp(s: string)
    requires |s| == 10
    ensures !IsoTimestampMatch(s)
  {
  }
}
