/**
 Character classes and string helpers shared by the doc-comment scanner and the
 alias-table builder: the classes `\s`, `\w` and `[a-zA-Z]` of PCRE without
 Unicode properties, the name classes of the `@property` pattern, and PHP's
 `trim()`.

 PHP works on bytes and these classes only ever accept ASCII bytes, so a
 non-ASCII code point here behaves exactly like each byte of its UTF-8 form:
 it is never a space, a letter or a word character, and it never ends a name.
 */
module Text {

  /** PCRE `\s`: space, tab, line feed, vertical tab, form feed, carriage return. */
  predicate IsSpace(c: char)
  {
    c == ' ' || c == '\t' || c == '\n' || c == '\r' || c == 11 as char || c == 12 as char
  }

  /** `[a-zA-Z]` */
  predicate IsLetter(c: char)
  {
    ('a' <= c <= 'z') || ('A' <= c <= 'Z')
  }

  /** PCRE `\w`: ASCII letters, digits and underscore. */
  predicate IsWordChar(c: char)
  {
    IsLetter(c) || ('0' <= c <= '9') || c == '_'
  }

  /** The characters PHP's `trim()` strips by default: " \t\n\r\0\x0B". */
  predicate IsTrimChar(c: char)
  {
    c == ' ' || c == '\t' || c == '\n' || c == '\r' || c == 0 as char || c == 11 as char
  }

  /** The character classes the patterns repeat. */
  datatype Class =
    | Space          // `\s`
    | Word           // `\w`
    | Trimmed        // what `trim()` strips
    | Equals         // `=`
    | NameAsWritten  // `[^ =]`: a line break does not end a name
    | Name           // `[^\s=]`: any whitespace ends a name
    | NotLineBreak   // `.`

  predicate In(c: char, k: Class)
  {
    match k
    case Space => IsSpace(c)
    case Word => IsWordChar(c)
    case Trimmed => IsTrimChar(c)
    case Equals => c == '='
    case NameAsWritten => c != ' ' && c != '='
    case Name => !IsSpace(c) && c != '='
    case NotLineBreak => c != '\n'
  }

  /** Every character of `s` is in class `k`. */
  predicate AllIn(s: string, k: Class)
  {
    forall i :: 0 <= i < |s| ==> In(s[i], k)
  }

  /** Every class-`k` character is also a class-`k2` character. */
  predicate Within(k: Class, k2: Class)
  {
    forall c :: In(c, k) ==> In(c, k2)
  }

  lemma AllInWidens(s: string, k: Class, k2: Class)
    requires AllIn(s, k) && Within(k, k2)
    ensures AllIn(s, k2)
  {
    forall i | 0 <= i < |s|
      ensures In(s[i], k2)
    {
      assert In(s[i], k);
    }
  }

  lemma AllInConcat(a: string, b: string, k: Class)
    requires AllIn(a, k) && AllIn(b, k)
    ensures AllIn(a + b, k)
  {
    forall i | 0 <= i < |a + b|
      ensures In((a + b)[i], k)
    {
      if i < |a| { assert (a + b)[i] == a[i]; } else { assert (a + b)[i] == b[i - |a|]; }
    }
  }

  /** The length of the longest prefix of `s` made of class-`k` characters:
      what a greedy `k*` consumes at the start of `s`. */
  function Span(s: string, k: Class): (n: nat)
    ensures n <= |s|
    ensures n == |s| || !In(s[n], k)
  {
    if |s| == 0 || !In(s[0], k) then 0 else 1 + Span(s[1..], k)
  }

  /** Every character the span covers is in the class. */
  lemma {:induction false} SpanChars(s: string, k: Class)
    ensures AllIn(s[..Span(s, k)], k)
  {
    if |s| > 0 && In(s[0], k) {
      SpanChars(s[1..], k);
      assert s[..Span(s, k)] == [s[0]] + s[1..][..Span(s[1..], k)];
    }
  }

  /** A span is determined by where it stops: if the first `n` characters
      are in the class and the next one is not (or the text ends), the span
      is `n` long. */
  lemma {:induction false} SpanIs(s: string, k: Class, n: nat)
    requires n <= |s|
    requires AllIn(s[..n], k)
    requires n == |s| || !In(s[n], k)
    ensures Span(s, k) == n
  {
    if n > 0 {
      assert s[..n][0] == s[0];
      assert s[1..][..n - 1] == s[..n][1..];
      SpanIs(s[1..], k, n - 1);
    }
  }

  /** The span over `y + z` is exactly `y` when every character of `y` is in
      the class and `z` does not start with one that is. */
  lemma SpanOver(y: string, z: string, k: Class)
    requires AllIn(y, k)
    requires |z| == 0 || !In(z[0], k)
    ensures Span(y + z, k) == |y|
  {
    assert (y + z)[..|y|] == y;
    SpanIs(y + z, k, |y|);
  }

  /** The span over `y + z` takes exactly `y` and leaves `z`. */
  lemma SpanSplit(y: string, z: string, k: Class)
    requires AllIn(y, k)
    requires |z| == 0 || !In(z[0], k)
    ensures Span(y + z, k) == |y|
    ensures (y + z)[..|y|] == y && (y + z)[|y|..] == z
  {
    SpanOver(y, z, k);
    assert (y + z)[|y|..] == z;
  }

  /** `c` repeated `n` times. */
  function Repeat(c: char, n: nat): (r: string)
    ensures |r| == n
    ensures forall i :: 0 <= i < n ==> r[i] == c
  {
    if n == 0 then "" else [c] + Repeat(c, n - 1)
  }

  /** Where `trim()` starts keeping characters. */
  function TrimStart(s: string): (i: nat)
    ensures i <= |s|
    ensures i == |s| || !IsTrimChar(s[i])
  {
    Span(s, Trimmed)
  }

  /** Where `trim()` stops keeping characters: the end of `s` with its
      trailing trim characters removed, but never before `TrimStart(s)`. */
  function TrimEnd(s: string): (j: nat)
    ensures TrimStart(s) <= j <= |s|
    ensures j == TrimStart(s) || !IsTrimChar(s[j - 1])
    decreases |s|
  {
    if |s| == TrimStart(s) || !IsTrimChar(s[|s| - 1]) then |s|
    else
      var t := s[..|s| - 1];
      SpanChars(s, Trimmed);
      assert s[..TrimStart(s)] == t[..TrimStart(s)];
      SpanIs(t, Trimmed, TrimStart(s));
      TrimEnd(t)
  }

  /** PHP `trim()` with its default character list: `s` without its leading
      and trailing trim characters. */
  function Trim(s: string): (r: string)
    ensures r == s[TrimStart(s)..TrimEnd(s)]
    ensures |r| == 0 || (!IsTrimChar(r[0]) && !IsTrimChar(r[|r| - 1]))
  {
    s[TrimStart(s)..TrimEnd(s)]
  }

  /** What `trim()` removes are trim characters only. */
  lemma {:induction false} TrimRemovesOnlyTrimChars(s: string)
    ensures AllIn(s[..TrimStart(s)], Trimmed)
    ensures AllIn(s[TrimEnd(s)..], Trimmed)
    decreases |s|
  {
    SpanChars(s, Trimmed);
    if !(|s| == TrimStart(s) || !IsTrimChar(s[|s| - 1])) {
      var t := s[..|s| - 1];
      assert s[..TrimStart(s)] == t[..TrimStart(s)];
      SpanIs(t, Trimmed, TrimStart(s));
      TrimRemovesOnlyTrimChars(t);
      assert s[TrimEnd(s)..] == t[TrimEnd(t)..] + [s[|s| - 1]];
    }
  }

  /** Leading trim characters go; a text that neither starts nor ends with
      one is kept whole. */
  lemma TrimAround(ws: string, s: string)
    requires AllIn(ws, Trimmed)
    requires |s| > 0 && !IsTrimChar(s[0]) && !IsTrimChar(s[|s| - 1])
    ensures Trim(ws + s) == s
  {
    SpanOver(ws, s, Trimmed);
    assert (ws + s)[|ws + s| - 1] == s[|s| - 1];
    assert (ws + s)[|ws|..] == s;
  }

  /** Trimming twice is trimming once. */
  lemma TrimIdempotent(s: string)
    ensures Trim(Trim(s)) == Trim(s)
  {
    var r := Trim(s);
    SpanIs(r, Trimmed, 0);
    if |r| > 0 {
      assert TrimEnd(r) == |r|;
    }
  }
}
