/**
 `ClassDocPropertyReader`: collects the `@property` declarations of a class's
 doc comment and those of all its ancestors.

 The line pattern is
   `\*\s+@property(?<type>\s+[a-zA-Z]\w+)?\s+\$(?<alias>[^ =]+)(?<desc>.*$)?`
 in multi-line mode, applied with `preg_match_all` to the whole doc comment.
 It is recognised here by hand, stage by stage, each stage taking the text
 that is left and returning what it read and the text after it. Every
 repetition in the pattern is followed by something the repeated class cannot
 match (a space run by `@`, `$` or a letter, a word run by a space), so only
 the greedy choice can succeed and the match at a position is unique.
 */
module ClassDocPropertyReader {
  import opened Options
  import opened Text
  import opened PhpArrays

  /** One declared property: `array{type: string, desc: string}`. */
  datatype Def = Def(typ: string, desc: string)

  /** One match of the line pattern: its `type`, `alias` and `desc` groups,
      untrimmed. */
  datatype Found = Found(typ: string, alias: string, desc: string)

  /** How a name ends. The pattern as written uses `[^ =]+`, so only a space
      or `=` ends a name, and a tab, carriage return, line break, vertical
      tab or form feed continues it; the evidently intended rule is
      `[^\s=]+`, where any whitespace ends it. Every reader below takes the
      rule; the library as written reads with `AsWritten`. */
  datatype NameRule = AsWritten | Intended

  function NameClass(rule: NameRule): Class
  {
    match rule
    case AsWritten => NameAsWritten
    case Intended => Name
  }

  /** The type group `\s+[a-zA-Z]\w+` (optional) and `\s+\$`, at the start
      of `s`: the type group's text ("" when absent) and the text after the
      `$`. */
  function TypeThenDollar(s: string): (t: Option<(string, string)>)
    ensures t.Some? ==> |t.value.1| < |s| && s[|s| - |t.value.1| - 1] == '$'
  {
    var w := Span(s, Space);
    var c := s[w..];
    if w == 0 || |c| == 0 then None
    else if c[0] == '$' then Some(("", c[1..]))
    else if !IsLetter(c[0]) then None
    else
      var wr := Span(c[1..], Word);
      var e := c[1 + wr..];
      var w2 := Span(e, Space);
      if wr == 0 || w2 == 0 || w2 == |e| || e[w2] != '$' then None
      else Some((s[..w + 1 + wr], e[w2 + 1..]))
  }

  /** The name, which must not be empty, and the rest of its line as
      description, at the start of `s`; and the text after them. */
  function NameAndDesc(s: string, typ: string, rule: NameRule): (m: Option<(Found, string)>)
    ensures m.Some? ==> |m.value.1| < |s|
  {
    var a := Span(s, NameClass(rule));
    if a == 0 then None
    else
      var d := Span(s[a..], NotLineBreak);
      Some((Found(typ, s[..a], s[a..][..d]), s[a + d..]))
  }

  /** Everything after `@property`: type group, `$`, name and description. */
  function AfterKeyword(s: string, rule: NameRule): (m: Option<(Found, string)>)
    ensures m.Some? ==> |m.value.1| < |s|
  {
    match TypeThenDollar(s)
    case None => None
    case Some((typ, r)) => NameAndDesc(r, typ, rule)
  }

  /** The match of the line pattern at the start of `s`, and the text after it. */
  function MatchAt(s: string, rule: NameRule): (m: Option<(Found, string)>)
    ensures m.Some? ==> |m.value.1| < |s|
  {
    if |s| == 0 || s[0] != '*' then None
    else
      var w := Span(s[1..], Space);
      var r := s[1 + w..];
      if w == 0 || |r| < 9 || r[..9] != "@property" then None
      else AfterKeyword(r[9..], rule)
  }

  /** `preg_match_all`: try each position in turn; after a match, continue
      where it ended. */
  function Scan(s: string, rule: NameRule): (ms: seq<Found>)
    decreases |s|
  {
    if |s| == 0 then []
    else
      match MatchAt(s, rule)
      case Some((m, rest)) => [m] + Scan(rest, rule)
      case None => Scan(s[1..], rule)
  }

  /** `preg_match_all` of the line pattern over a doc comment, names ending
      as `rule` says. The library as written reads with `AsWritten`. */
  function Matches(doc: string, rule: NameRule): seq<Found>
  {
    Scan(doc, rule)
  }

  /** `$ref->getDocComment() ?: ""`: a level without a doc comment reads as
      empty text. */
  function DocText(doc: Option<string>): string
  {
    doc.GetOr("")
  }

  /** The matches of each level: the class itself first, then each parent
      in turn up to the root. */
  function LevelMatches(docs: seq<Option<string>>, rule: NameRule): (levels: seq<seq<Found>>)
    ensures |levels| == |docs|
    ensures forall i :: 0 <= i < |docs| ==> levels[i] == Matches(DocText(docs[i]), rule)
  {
    seq(|docs|, i requires 0 <= i < |docs| => Matches(DocText(docs[i]), rule))
  }

  /** The matches of all levels in the order the walk meets them. */
  function Concat(levels: seq<seq<Found>>): seq<Found>
    decreases |levels|
  {
    if |levels| == 0 then [] else Concat(levels[..|levels| - 1]) + levels[|levels| - 1]
  }

  /** The assignment `$defs[trim(alias)] = [type => trim(type), desc => trim(desc)]`. */
  function Record(m: Found): (Option<Key>, Def)
  {
    (Some(StrKey(Trim(m.alias))), Def(Trim(m.typ), Trim(m.desc)))
  }

  function Records(ms: seq<Found>): (items: seq<(Option<Key>, Def)>)
    ensures |items| == |ms|
    ensures forall i :: 0 <= i < |ms| ==> items[i] == Record(ms[i])
  {
    seq(|ms|, i requires 0 <= i < |ms| => Record(ms[i]))
  }

  /** The loop's `$defs`: every match of every level assigned in turn. */
  function Merge(levels: seq<seq<Found>>): (defs: Arr<Def>)
    ensures WellFormed(defs)
  {
    StoreAll([], Records(Concat(levels)))
  }

  /** `(new ClassDocPropertyReader($class))->properties()`, given the doc
      comments of the class and its ancestors, most-derived first. The
      result is computed once, at construction, and returned as is. */
  function Properties(docs: seq<Option<string>>, rule: NameRule): (defs: Arr<Def>)
    ensures WellFormed(defs)
  {
    Merge(LevelMatches(docs, rule))
  }

  // ---------------------------------------------------------------------
  // What a match holds.

  /** A match as `NameAndDesc` builds it: a non-empty name of name
      characters, and a description that stays on the name's line. */
  predicate WellShaped(m: Found, rule: NameRule)
  {
    |m.alias| > 0 && AllIn(m.alias, NameClass(rule)) && AllIn(m.desc, NotLineBreak)
  }

  lemma NameAndDescShape(s: string, typ: string, rule: NameRule)
    ensures NameAndDesc(s, typ, rule).Some? ==> WellShaped(NameAndDesc(s, typ, rule).value.0, rule)
  {
    SpanChars(s, NameClass(rule));
    SpanChars(s[Span(s, NameClass(rule))..], NotLineBreak);
  }

  lemma MatchAtShape(s: string, rule: NameRule)
    ensures MatchAt(s, rule).Some? ==> WellShaped(MatchAt(s, rule).value.0, rule)
  {
    if MatchAt(s, rule).Some? {
      var r := s[1 + Span(s[1..], Space)..];
      var t := TypeThenDollar(r[9..]).value;
      NameAndDescShape(t.1, t.0, rule);
    }
  }

  predicate AllShaped(ms: seq<Found>, rule: NameRule)
  {
    forall i :: 0 <= i < |ms| ==> WellShaped(ms[i], rule)
  }

  lemma AllShapedCons(m: Found, ms: seq<Found>, rule: NameRule)
    requires WellShaped(m, rule) && AllShaped(ms, rule)
    ensures AllShaped([m] + ms, rule)
  {
    forall i | 0 <= i < |[m] + ms|
      ensures WellShaped(([m] + ms)[i], rule)
    {
      if i > 0 {
        assert ([m] + ms)[i] == ms[i - 1];
      }
    }
  }

  /** Every match is well shaped. With the intended name rule this says that
      no name contains whitespace, a line break in particular, so a name
      never reaches into the next line. */
  lemma {:induction false} ScanShape(s: string, rule: NameRule)
    ensures AllShaped(Scan(s, rule), rule)
    decreases |s|
  {
    if |s| > 0 {
      var mm := MatchAt(s, rule);
      MatchAtShape(s, rule);
      if mm.Some? {
        ScanShape(mm.value.1, rule);
        AllShapedCons(mm.value.0, Scan(mm.value.1, rule), rule);
      } else {
        ScanShape(s[1..], rule);
      }
    }
  }

  // ---------------------------------------------------------------------
  // The line grammar: what is accepted and what is not.

  /** A type group: whitespace, a letter, then at least one word character. */
  function TypeGroup(ws: string, letter: char, word: string): string
  {
    ws + ([letter] + word)
  }

  predicate IsTypeGroupParts(ws: string, letter: char, word: string)
  {
    |ws| > 0 && AllIn(ws, Space) && IsLetter(letter) && |word| > 0 && AllIn(word, Word)
  }

  /** A declaration followed by the rest of the doc comment: `*`, whitespace,
      `@property`, the type group (or nothing), whitespace, `$`, the name,
      the rest of the line, and what follows the line. */
  function Declaration(ws1: string, typ: string, ws2: string, name: string, desc: string, tail: string): string
  {
    "*" + (ws1 + ("@property" + (typ + (ws2 + ("$" + (name + (desc + tail)))))))
  }

  /** After `@property` with no type group: whitespace and `$` are read. */
  lemma UntypedAccepts(ws2: string, rest: string)
    requires |ws2| > 0 && AllIn(ws2, Space)
    ensures TypeThenDollar(ws2 + ("$" + rest)) == Some(("", rest))
  {
    var s := ws2 + ("$" + rest);
    SpanOver(ws2, "$" + rest, Space);
    assert s[|ws2|..] == "$" + rest;
  }

  /** After `@property`: a type group, whitespace and `$` are read, and the
      type group is what the `type` group captures. */
  lemma TypedAccepts(ws: string, letter: char, word: string, ws2: string, rest: string)
    requires IsTypeGroupParts(ws, letter, word)
    requires |ws2| > 0 && AllIn(ws2, Space)
    ensures TypeThenDollar(TypeGroup(ws, letter, word) + (ws2 + ("$" + rest)))
         == Some((TypeGroup(ws, letter, word), rest))
  {
    TypeGroupThen(ws, letter, word, ws2 + ("$" + rest));
    TypedPartsAccepts(ws, letter, word, ws2, rest);
  }

  lemma TypeGroupThen(ws: string, letter: char, word: string, tail: string)
    ensures TypeGroup(ws, letter, word) + tail == ws + ([letter] + (word + tail))
  {
  }

  lemma TypedPartsAccepts(ws: string, letter: char, word: string, ws2: string, rest: string)
    requires IsTypeGroupParts(ws, letter, word)
    requires |ws2| > 0 && AllIn(ws2, Space)
    ensures TypeThenDollar(ws + ([letter] + (word + (ws2 + ("$" + rest))))) == Some((ws + ([letter] + word), rest))
  {
    var tail := ws2 + ("$" + rest);
    var c := [letter] + (word + tail);
    var s := ws + c;
    SpanOver(ws, c, Space);
    assert s[|ws|..] == c;
    WordThenDollar(letter, word, ws2, rest);
    assert s[..|ws| + 1 + |word|] == ws + ([letter] + word);
  }

  /** The part of the type group after its leading whitespace. */
  lemma WordThenDollar(letter: char, word: string, ws2: string, rest: string)
    requires |word| > 0 && AllIn(word, Word)
    requires |ws2| > 0 && AllIn(ws2, Space)
    ensures var c := [letter] + (word + (ws2 + ("$" + rest)));
            && Span(c[1..], Word) == |word|
            && c[1 + |word|..] == ws2 + ("$" + rest)
            && Span(ws2 + ("$" + rest), Space) == |ws2|
            && (ws2 + ("$" + rest))[|ws2|] == '$'
            && (ws2 + ("$" + rest))[|ws2| + 1..] == rest
  {
    WordPart(letter, word, ws2 + ("$" + rest));
    DollarPart(ws2, rest);
  }

  lemma WordPart(letter: char, word: string, tail: string)
    requires AllIn(word, Word)
    requires |tail| == 0 || !In(tail[0], Word)
    ensures var c := [letter] + (word + tail);
            Span(c[1..], Word) == |word| && c[1 + |word|..] == tail
  {
    var c := [letter] + (word + tail);
    assert c[1..] == word + tail;
    SpanSplit(word, tail, Word);
    assert c[1 + |word|..] == (word + tail)[|word|..];
  }

  lemma DollarPart(ws2: string, rest: string)
    requires AllIn(ws2, Space)
    ensures Span(ws2 + ("$" + rest), Space) == |ws2|
    ensures (ws2 + ("$" + rest))[|ws2|] == '$'
    ensures (ws2 + ("$" + rest))[|ws2| + 1..] == rest
  {
    SpanSplit(ws2, "$" + rest, Space);
    assert (ws2 + ("$" + rest))[|ws2| + 1..] == ("$" + rest)[1..];
  }

  /** `*`, whitespace and `@property` are read, and what follows is left to
      the later stages. */
  lemma KeywordAccepts(ws1: string, rest: string, rule: NameRule)
    requires |ws1| > 0 && AllIn(ws1, Space)
    ensures MatchAt("*" + (ws1 + ("@property" + rest)), rule) == AfterKeyword(rest, rule)
  {
    var s := "*" + (ws1 + ("@property" + rest));
    assert s[1..] == ws1 + ("@property" + rest);
    SpanOver(ws1, "@property" + rest, Space);
    assert s[1 + |ws1|..] == "@property" + rest;
    assert ("@property" + rest)[..9] == "@property";
    assert ("@property" + rest)[9..] == rest;
  }

  /** The name up to the first character that ends it, then the rest of the
      line as description; the text after the line is left over. */
  lemma NameAndDescAccepts(name: string, desc: string, tail: string, typ: string, rule: NameRule)
    requires |name| > 0 && AllIn(name, NameClass(rule))
    requires AllIn(desc, NotLineBreak)
    requires if |desc| > 0 then !In(desc[0], NameClass(rule)) else |tail| == 0 || !In(tail[0], NameClass(rule))
    requires |tail| == 0 || tail[0] == '\n'
    ensures NameAndDesc(name + (desc + tail), typ, rule) == Some((Found(typ, name, desc), tail))
  {
    var after := desc + tail;
    assert |after| == 0 || !In(after[0], NameClass(rule)) by {
      if |desc| == 0 { assert after == tail; }
    }
    SpanSplit(name, after, NameClass(rule));
    SpanSplit(desc, tail, NotLineBreak);
    var s := name + after;
    assert s[|name| + |desc|..] == after[|desc|..];
  }

  /** A well-formed declaration is matched at its `*`: the type group, the
      name up to the first character that ends it, and the rest of the line
      as description. */
  lemma MatchAtAccepts(ws1: string, typ: string, ws2: string, name: string, desc: string, tail: string, rule: NameRule)
    requires |ws1| > 0 && AllIn(ws1, Space)
    requires typ == "" || exists ws, letter, word :: IsTypeGroupParts(ws, letter, word) && typ == TypeGroup(ws, letter, word)
    requires |ws2| > 0 && AllIn(ws2, Space)
    requires |name| > 0 && AllIn(name, NameClass(rule))
    requires AllIn(desc, NotLineBreak)
    requires if |desc| > 0 then !In(desc[0], NameClass(rule)) else |tail| == 0 || !In(tail[0], NameClass(rule))
    requires |tail| == 0 || tail[0] == '\n'
    ensures MatchAt(Declaration(ws1, typ, ws2, name, desc, tail), rule) == Some((Found(typ, name, desc), tail))
  {
    var rest := name + (desc + tail);
    KeywordAccepts(ws1, typ + (ws2 + ("$" + rest)), rule);
    if typ == "" {
      assert typ + (ws2 + ("$" + rest)) == ws2 + ("$" + rest);
      UntypedAccepts(ws2, rest);
    } else {
      var ws, letter, word :| IsTypeGroupParts(ws, letter, word) && typ == TypeGroup(ws, letter, word);
      TypedAccepts(ws, letter, word, ws2, rest);
    }
    NameAndDescAccepts(name, desc, tail, typ, rule);
  }

  /** Scanning a doc comment that starts with a declaration yields that
      declaration's match and then the matches of what follows its line. */
  lemma ScanDeclaration(ws1: string, typ: string, ws2: string, name: string, desc: string, tail: string, rule: NameRule)
    requires |ws1| > 0 && AllIn(ws1, Space)
    requires typ == "" || exists ws, letter, word :: IsTypeGroupParts(ws, letter, word) && typ == TypeGroup(ws, letter, word)
    requires |ws2| > 0 && AllIn(ws2, Space)
    requires |name| > 0 && AllIn(name, NameClass(rule))
    requires AllIn(desc, NotLineBreak)
    requires if |desc| > 0 then !In(desc[0], NameClass(rule)) else |tail| == 0 || !In(tail[0], NameClass(rule))
    requires |tail| == 0 || tail[0] == '\n'
    ensures Scan(Declaration(ws1, typ, ws2, name, desc, tail), rule) == [Found(typ, name, desc)] + Scan(tail, rule)
  {
    MatchAtAccepts(ws1, typ, ws2, name, desc, tail, rule);
  }

  /** Text that does not start with `*` is skipped one character at a time. */
  lemma ScanSkips(s: string, rule: NameRule)
    requires |s| > 0 && s[0] != '*'
    ensures Scan(s, rule) == Scan(s[1..], rule)
  {
  }

  /** What `TypeThenDollar` reads is an optional type group, whitespace and
      `$`; the type group, when present, is returned in its parts. */
  lemma TypeThenDollarSound(s: string) returns (ws: string, letter: char, word: string, ws2: string)
    requires TypeThenDollar(s).Some?
    ensures var (typ, rest) := TypeThenDollar(s).value;
            && (typ == "" || (IsTypeGroupParts(ws, letter, word) && typ == TypeGroup(ws, letter, word)))
            && |ws2| > 0 && AllIn(ws2, Space)
            && s == typ + (ws2 + ("$" + rest))
  {
    var w := Span(s, Space);
    var c := s[w..];
    SpanChars(s, Space);
    assert w > 0 && |c| > 0;
    if c[0] == '$' {
      ws, letter, word, ws2 := "", 'a', "", s[..w];
      assert TypeThenDollar(s).value == ("", c[1..]);
      CutAt(s, w);
    } else {
      var wr := Span(c[1..], Word);
      var e := c[1 + wr..];
      var w2 := Span(e, Space);
      assert IsLetter(c[0]) && wr > 0 && 0 < w2 < |e| && e[w2] == '$';
      assert TypeThenDollar(s).value == (s[..w + 1 + wr], e[w2 + 1..]);
      SpanChars(c[1..], Word);
      SpanChars(e, Space);
      ws, letter, word, ws2 := TypedSound(s, c, e, w, wr, w2);
    }
  }

  /** The typed case of `TypeThenDollarSound`, on the positions where each
      part of `\s+[a-zA-Z]\w+\s+\$` ends. */
  lemma TypedSound(s: string, c: string, e: string, w: nat, wr: nat, w2: nat)
    returns (ws: string, letter: char, word: string, ws2: string)
    requires 0 < w < |s| && c == s[w..] && 1 + wr <= |c| && e == c[1 + wr..] && 0 < w2 < |e|
    requires AllIn(s[..w], Space) && IsLetter(c[0])
    requires wr > 0 && AllIn(c[1..][..wr], Word)
    requires AllIn(e[..w2], Space) && e[w2] == '$'
    ensures IsTypeGroupParts(ws, letter, word) && s[..w + 1 + wr] == TypeGroup(ws, letter, word)
    ensures |ws2| > 0 && AllIn(ws2, Space)
    ensures s == s[..w + 1 + wr] + (ws2 + ("$" + e[w2 + 1..]))
  {
    ws, letter, word, ws2 := s[..w], c[0], c[1..][..wr], e[..w2];
    TypeGroupSplit(s, w, wr, c, e);
    CutAt(e, w2);
  }

  /** `t` cut at position `n`, around the character there. */
  lemma CutAt(t: string, n: nat)
    requires n < |t|
    ensures t == t[..n] + t[n..] && t[n..] == [t[n]] + t[n + 1..]
  {
  }

  lemma TypeGroupSplit(s: string, w: nat, wr: nat, c: string, e: string)
    requires w + 1 + wr <= |s| && c == s[w..] && e == c[1 + wr..]
    ensures s[..w + 1 + wr] == TypeGroup(s[..w], c[0], c[1..][..wr])
    ensures s == s[..w + 1 + wr] + e
  {
    assert s[..w + 1 + wr] == s[..w] + c[..1 + wr];
    assert c[..1 + wr] == [c[0]] + c[1..][..wr];
    assert s == s[..w + 1 + wr] + s[w + 1 + wr..];
  }

  /** What `NameAndDesc` reads is a name up to the first character that ends
      it, then the rest of its line; what is left starts a new line. */
  lemma NameAndDescSound(s: string, typ: string, rule: NameRule)
    requires NameAndDesc(s, typ, rule).Some?
    ensures var (m, tail) := NameAndDesc(s, typ, rule).value;
            && m.typ == typ && WellShaped(m, rule)
            && (if |m.desc| > 0 then !In(m.desc[0], NameClass(rule)) else |tail| == 0 || !In(tail[0], NameClass(rule)))
            && (|tail| == 0 || tail[0] == '\n')
            && s == m.alias + (m.desc + tail)
  {
    NameAndDescShape(s, typ, rule);
    var a := Span(s, NameClass(rule));
    var d := Span(s[a..], NotLineBreak);
    assert s == s[..a] + (s[a..][..d] + s[a + d..]);
  }

  /** What `MatchAt` reads before the type group is `*`, whitespace and
      `@property`. */
  lemma KeywordSound(s: string, rule: NameRule) returns (ws1: string, after: string)
    requires MatchAt(s, rule).Some?
    ensures |ws1| > 0 && AllIn(ws1, Space)
    ensures s == "*" + (ws1 + ("@property" + after))
    ensures MatchAt(s, rule) == AfterKeyword(after, rule)
  {
    var w := Span(s[1..], Space);
    assert s[0] == '*' && w > 0 && |s[1 + w..]| >= 9 && s[1 + w..][..9] == "@property";
    SpanChars(s[1..], Space);
    ws1, after := s[1..][..w], s[1 + w..][9..];
    KeywordParts(s, w);
  }

  lemma KeywordParts(s: string, w: nat)
    requires 1 + w + 9 <= |s| && s[0] == '*' && s[1 + w..][..9] == "@property"
    ensures s == "*" + (s[1..][..w] + ("@property" + s[1 + w..][9..]))
  {
    var r := s[1 + w..];
    assert r == r[..9] + r[9..];
    CutAt(s, 0);
    CutAt(s[1..], w);
    assert r == s[1..][w..];
  }

  lemma DeclarationOf(s: string, ws1: string, after: string, typ: string, ws2: string, r: string,
                      name: string, desc: string, tail: string)
    requires s == "*" + (ws1 + ("@property" + after))
    requires after == typ + (ws2 + ("$" + r))
    requires r == name + (desc + tail)
    ensures s == Declaration(ws1, typ, ws2, name, desc, tail)
  {
  }

  /** The converse of `MatchAtAccepts`: a match at the start of `s` is a
      declaration laid out as `Declaration` says, with the same conditions
      on its parts that `MatchAtAccepts` asks for, and the match holds
      exactly its type group, name and description. So the `@property`
      lines that match are exactly the well-formed declarations. */
  lemma MatchAtSound(s: string, rule: NameRule) returns (ws1: string, ws: string, letter: char, word: string, ws2: string)
    requires MatchAt(s, rule).Some?
    ensures var (m, tail) := MatchAt(s, rule).value;
            && |ws1| > 0 && AllIn(ws1, Space)
            && (m.typ == "" || (IsTypeGroupParts(ws, letter, word) && m.typ == TypeGroup(ws, letter, word)))
            && |ws2| > 0 && AllIn(ws2, Space)
            && |m.alias| > 0 && AllIn(m.alias, NameClass(rule))
            && AllIn(m.desc, NotLineBreak)
            && (if |m.desc| > 0 then !In(m.desc[0], NameClass(rule)) else |tail| == 0 || !In(tail[0], NameClass(rule)))
            && (|tail| == 0 || tail[0] == '\n')
            && s == Declaration(ws1, m.typ, ws2, m.alias, m.desc, tail)
  {
    var after;
    ws1, after := KeywordSound(s, rule);
    ws, letter, word, ws2 := TypeThenDollarSound(after);
    var (typ, r) := TypeThenDollar(after).value;
    assert MatchAt(s, rule) == NameAndDesc(r, typ, rule);
    NameAndDescSound(r, typ, rule);
    var (m, tail) := NameAndDesc(r, typ, rule).value;
    DeclarationOf(s, ws1, after, typ, ws2, r, m.alias, m.desc, tail);
  }

  /** Whitespace must follow `@property`: `@property-read $x`,
      `@property-write $x` and `@propertyX $x` never match. */
  lemma KeywordNeedsWhitespace(ws1: string, rest: string, rule: NameRule)
    requires |ws1| > 0 && AllIn(ws1, Space)
    requires |rest| == 0 || !IsSpace(rest[0])
    ensures MatchAt("*" + (ws1 + ("@property" + rest)), rule) == None
  {
    KeywordAccepts(ws1, rest, rule);
    SpanIs(rest, Space, 0);
  }

  /** A declaration needs its `$`: when none follows `@property`, the line
      does not match. */
  lemma MissingDollarRejected(ws1: string, rest: string, rule: NameRule)
    requires |ws1| > 0 && AllIn(ws1, Space)
    requires '$' !in rest
    ensures MatchAt("*" + (ws1 + ("@property" + rest)), rule) == None
  {
    KeywordAccepts(ws1, rest, rule);
  }

  /** A `$` with no name after it (a space, `=` or the end of the text
      follows) does not match. */
  lemma EmptyNameRejected(ws1: string, ws2: string, rest: string, rule: NameRule)
    requires |ws1| > 0 && AllIn(ws1, Space)
    requires |ws2| > 0 && AllIn(ws2, Space)
    requires |rest| == 0 || rest[0] == ' ' || rest[0] == '='
    ensures MatchAt("*" + (ws1 + ("@property" + (ws2 + ("$" + rest)))), rule) == None
  {
    KeywordAccepts(ws1, ws2 + ("$" + rest), rule);
    UntypedAccepts(ws2, rest);
    SpanIs(rest, NameClass(rule), 0);
  }

  /** A one-letter type hint is not a type group, and nothing else can
      stand between `@property` and `$`: the line does not match. */
  lemma OneLetterTypeRejected(ws1: string, ws2: string, letter: char, ws3: string, rest: string, rule: NameRule)
    requires |ws1| > 0 && AllIn(ws1, Space)
    requires |ws2| > 0 && AllIn(ws2, Space)
    requires IsLetter(letter)
    requires |ws3| > 0 && AllIn(ws3, Space)
    ensures MatchAt("*" + (ws1 + ("@property" + (ws2 + ([letter] + (ws3 + ("$" + rest)))))), rule) == None
  {
    KeywordAccepts(ws1, ws2 + ([letter] + (ws3 + ("$" + rest))), rule);
    OneLetterNoType(ws2, letter, ws3, rest);
  }

  lemma OneLetterNoType(ws2: string, letter: char, ws3: string, rest: string)
    requires |ws2| > 0 && AllIn(ws2, Space)
    requires IsLetter(letter)
    requires |ws3| > 0 && AllIn(ws3, Space)
    ensures TypeThenDollar(ws2 + ([letter] + (ws3 + ("$" + rest)))) == None
  {
    var c := [letter] + (ws3 + ("$" + rest));
    SpanSplit(ws2, c, Space);
    assert c[1..] == ws3 + ("$" + rest);
    SpanIs(c[1..], Word, 0);
  }

  // ---------------------------------------------------------------------
  // Merging the levels.

  lemma {:induction false} ConcatAppend(xs: seq<seq<Found>>, ys: seq<seq<Found>>)
    ensures Concat(xs + ys) == Concat(xs) + Concat(ys)
    decreases |ys|
  {
    if |ys| == 0 {
      assert xs + ys == xs;
    } else {
      var n := |ys| - 1;
      assert (xs + ys)[..|xs + ys| - 1] == xs + ys[..n];
      ConcatAppend(xs, ys[..n]);
    }
  }

  /** The walk visits the levels in order: the matches of a longer chain are
      those of its first part followed by those of the rest. */
  lemma LevelMatchesAppend(xs: seq<Option<string>>, ys: seq<Option<string>>, rule: NameRule)
    ensures LevelMatches(xs + ys, rule) == LevelMatches(xs, rule) + LevelMatches(ys, rule)
  {
  }

  /** A class without a doc comment contributes nothing, wherever it stands
      in the chain. */
  lemma MissingDocContributesNothing(docs: seq<Option<string>>, i: nat, rule: NameRule)
    requires i <= |docs|
    ensures Properties(docs[..i] + [None] + docs[i..], rule) == Properties(docs, rule)
  {
    var none: seq<Option<string>> := [None];
    var empty: seq<seq<Found>> := [[]];
    LevelMatchesAppend(docs[..i] + none, docs[i..], rule);
    LevelMatchesAppend(docs[..i], none, rule);
    LevelMatchesAppend(docs[..i], docs[i..], rule);
    assert docs[..i] + docs[i..] == docs;
    assert LevelMatches(none, rule) == empty;
    ConcatSkipsEmpty(LevelMatches(docs[..i], rule), LevelMatches(docs[i..], rule));
  }

  /** A level without matches adds nothing to the concatenation. */
  lemma ConcatSkipsEmpty(a: seq<seq<Found>>, b: seq<seq<Found>>)
    ensures Concat(a + [[]] + b) == Concat(a + b)
  {
    var empty: seq<seq<Found>> := [[]];
    ConcatAppend(a + empty, b);
    ConcatAppend(a, empty);
    ConcatAppend(a, b);
    assert empty[..0] == [];
  }

  /** Each further ancestor is scanned after everything below it, and its
      declarations are assigned over what the derived levels declared. */
  lemma AncestorAssignedAfter(docs: seq<Option<string>>, parent: Option<string>, rule: NameRule)
    ensures Properties(docs + [parent], rule) == StoreAll(Properties(docs, rule), Records(Matches(DocText(parent), rule)))
  {
    var levels := LevelMatches(docs, rule);
    var ms := Matches(DocText(parent), rule);
    LevelMatchesAppend(docs, [parent], rule);
    assert LevelMatches(docs + [parent], rule) == levels + [ms];
    ConcatAppend(levels, [ms]);
    assert [ms][..0] == [];
    assert Records(Concat(levels) + ms) == Records(Concat(levels)) + Records(ms);
    StoreAllSplit([], Records(Concat(levels)), Records(ms));
  }

  /** The last declaration of a name, counting the derived class first and
      its ancestors after it, is the one recorded: an ancestor's declaration
      replaces a derived class's. */
  lemma PropertiesLastDeclarationWins(docs: seq<Option<string>>, i: nat, name: string, rule: NameRule)
    requires i < |Concat(LevelMatches(docs, rule))|
    requires Trim(Concat(LevelMatches(docs, rule))[i].alias) == name
    requires forall j :: i < j < |Concat(LevelMatches(docs, rule))| ==> Trim(Concat(LevelMatches(docs, rule))[j].alias) != name
    ensures var m := Concat(LevelMatches(docs, rule))[i];
            Lookup(Properties(docs, rule), StrKey(name)) == Some(Def(Trim(m.typ), Trim(m.desc)))
  {
    StoreAllLastWins([], Records(Concat(LevelMatches(docs, rule))), i, StrKey(name));
  }

  /** A name no level declares is absent. */
  lemma PropertiesUndeclared(docs: seq<Option<string>>, name: string, rule: NameRule)
    requires forall j :: 0 <= j < |Concat(LevelMatches(docs, rule))| ==> Trim(Concat(LevelMatches(docs, rule))[j].alias) != name
    ensures !HasKey(Properties(docs, rule), StrKey(name))
  {
    StoreAllUntouched([], Records(Concat(LevelMatches(docs, rule))), StrKey(name));
  }

  // ---------------------------------------------------------------------
  // The name rule `[^ =]+` lets a name run across a line break.

  /** Two declarations on consecutive lines, `* @property $x` without a
      description and then ` * @property $y` followed by `desc`. */
  function TwoLines(x: string, y: string, desc: string): string
  {
    Declaration(" ", "", " ", x, "", "\n " + Declaration(" ", "", " ", y, desc, ""))
  }

  /** The names and descriptions the two lines are meant to declare. */
  predicate TwoLinesParts(x: string, y: string, desc: string)
  {
    && |x| > 0 && AllIn(x, Name)
    && |y| > 0 && AllIn(y, Name)
    && AllIn(desc, NotLineBreak)
    && (|desc| == 0 || !In(desc[0], Name))
  }

  /** As written, the first name runs on past the line break up to the space
      that starts the second line, the whole second line becomes its
      description, and `y` is never declared. */
  lemma SwallowedDeclarationLine(x: string, y: string, desc: string)
    requires TwoLinesParts(x, y, desc)
    ensures Matches(TwoLines(x, y, desc), AsWritten)
         == [Found("", x + "\n", " " + Declaration(" ", "", " ", y, desc, ""))]
  {
    var second := Declaration(" ", "", " ", y, desc, "");
    assert TwoLines(x, y, desc) == Declaration(" ", "", " ", x + "\n", " " + second, "") by {
      assert x + ("" + ("\n " + second)) == (x + "\n") + ((" " + second) + "");
    }
    AllInWidens(x, Name, NameAsWritten);
    AllInConcat(x, "\n", NameAsWritten);
    SecondLineOnOneLine(y, desc);
    ScanDeclaration(" ", "", " ", x + "\n", " " + second, "", AsWritten);
  }

  /** The second line holds no line break. */
  lemma SecondLineOnOneLine(y: string, desc: string)
    requires |y| > 0 && AllIn(y, Name)
    requires AllIn(desc, NotLineBreak)
    ensures AllIn(" " + Declaration(" ", "", " ", y, desc, ""), NotLineBreak)
  {
    AllInWidens(y, Name, NotLineBreak);
    AllInConcat(y, desc + "", NotLineBreak);
    assert desc + "" == desc;
    var t := y + (desc + "");
    assert AllIn(" $", NotLineBreak);
    AllInConcat("$", t, NotLineBreak);
    AllInConcat(" ", "$" + t, NotLineBreak);
    assert "" + (" " + ("$" + t)) == " " + ("$" + t);
    assert AllIn(" * @property", NotLineBreak);
    AllInConcat("@property", "" + (" " + ("$" + t)), NotLineBreak);
    AllInConcat(" ", "@property" + ("" + (" " + ("$" + t))), NotLineBreak);
    AllInConcat("*", " " + ("@property" + ("" + (" " + ("$" + t)))), NotLineBreak);
    AllInConcat(" ", Declaration(" ", "", " ", y, desc, ""), NotLineBreak);
  }

  /** With names ending at any whitespace, both declarations are found. */
  lemma SeparateLinesBothMatch(x: string, y: string, desc: string)
    requires TwoLinesParts(x, y, desc)
    ensures Matches(TwoLines(x, y, desc), Intended) == [Found("", x, ""), Found("", y, desc)]
  {
    var second := Declaration(" ", "", " ", y, desc, "");
    ScanDeclaration(" ", "", " ", x, "", "\n " + second, Intended);
    ScanSkips("\n " + second, Intended);
    assert ("\n " + second)[1..] == " " + second;
    ScanSkips(" " + second, Intended);
    assert (" " + second)[1..] == second;
    ScanDeclaration(" ", "", " ", y, desc, "", Intended);
  }
}
