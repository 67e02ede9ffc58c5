/**
 `parsePropertyDefs`: the pipeline that turns the declared properties into the
 alias table, a PHP array from alias name to target name.

   1. keep the definitions whose description is truthy;
   2. trim each description;
   3. keep those matching `/^\s*={1,3}\s*[a-zA-Z]/`;
   4. replace each definition by the word `/^\s*={1,3}\s*(\w+)/` captures;
   5. drop every entry whose target is its own key.
 */
module AliasTable {
  import opened Options
  import opened Text
  import opened PhpArrays
  import opened Functions
  import opened ClassDocPropertyReader

  /** PHP truthiness of a string: everything but "" and "0". */
  predicate Truthy(s: string)
  {
    s != "" && s != "0"
  }

  /** Stage 1: `filter($defs, fn($def) => $def['desc'] ?? false)`. */
  function DropEmptyDescs(defs: Arr<Def>): Arr<Def>
  {
    Filter(defs, (d: Def) => Truthy(d.desc))
  }

  function TrimDesc(d: Def): Def
  {
    d.(desc := Trim(d.desc))
  }

  /** Stage 2: every description trimmed. */
  function TrimDescs(defs: Arr<Def>): Arr<Def>
  {
    Map(defs, TrimDesc)
  }

  /** `^\s*={1,3}\s*` at the start of `d`: what follows it, or None when the
      run of `=` is missing or longer than three. A longer run cannot match
      with fewer `=`, because the `=` left over is neither whitespace nor a
      letter or word character. */
  function AfterEquals(d: string): (r: Option<string>)
    ensures r.Some? ==> |r.value| < |d|
  {
    var w := Span(d, Space);
    var e := Span(d[w..], Equals);
    if e < 1 || 3 < e then None
    else
      var r := d[w..][e..];
      Some(r[Span(r, Space)..])
  }

  /** `preg_match('/^\s*={1,3}\s*[a-zA-Z]/', $desc)`. */
  predicate IsAliasDesc(d: string)
  {
    match AfterEquals(d)
    case None => false
    case Some(r) => |r| > 0 && IsLetter(r[0])
  }

  /** Stage 3: keep the descriptions that declare an alias. */
  function KeepAliasDescs(defs: Arr<Def>): Arr<Def>
  {
    Filter(defs, (d: Def) => IsAliasDesc(d.desc))
  }

  /** The pattern `/^\s*={1,3}\s*(\w+)/`: the whole match and group 1. */
  function CaptureTarget(d: string): Option<seq<string>>
  {
    match AfterEquals(d)
    case None => None
    case Some(r) =>
      var n := Span(r, Word);
      if n == 0 then None else Some([d[..|d| - |r| + n], r[..n]])
  }

  /** `pregMatcher(..., $def['desc'])[1]`. Group 1 always exists once stage 3
      has passed (`CaptureNeverFails`); otherwise PHP would yield null, which
      is "" here. */
  function TargetOf(desc: string): string
  {
    var groups := PregMatcher(CaptureTarget, desc);
    if |groups| > 1 then groups[1] else ""
  }

  function DescTarget(d: Def): string
  {
    TargetOf(d.desc)
  }

  /** The callable of stage 4: the alias stays the key, the captured target
      becomes the value. */
  function TargetEntry(alias: Key, d: Def): (Option<Key>, string)
  {
    (Some(alias), DescTarget(d))
  }

  /** Stage 4: `mapKeyValue($defs, fn($alias, $def) => [$alias, target])`. */
  function ToTargets(defs: Arr<Def>): Arr<string>
  {
    MapKeyValue(defs, TargetEntry)
  }

  /** Stage 5: `filter($defs, fn($target, $alias) => $target != $alias,
      ARRAY_FILTER_USE_BOTH)`. */
  function DropSelfAliases(t: Arr<string>): Arr<string>
  {
    FilterWithKeys(t, NotSelf)
  }

  predicate NotSelf(target: string, alias: Key)
  {
    alias != StrKey(target)
  }

  /** `parsePropertyDefs($property_defs)`. The first three stages share one
      element type and go through `pipe` as written; the last two change it. */
  function ParsePropertyDefs(defs: Arr<Def>): (t: Arr<string>)
    requires WellFormed(defs)
    ensures WellFormed(t)
  {
    DropSelfAliases(ToTargets(Pipe(defs, [DropEmptyDescs, TrimDescs, KeepAliasDescs])))
  }

  // ---------------------------------------------------------------------
  // The table, entry by entry.

  /** What the definition of one name declares: the target its trimmed
      description names, when the description is truthy, declares an alias,
      and the target is not the name itself. */
  function DeclaredTarget(defs: Arr<Def>, name: Key): Option<string>
  {
    match Lookup(defs, name)
    case None => None
    case Some(d) =>
      var desc := Trim(d.desc);
      if Truthy(d.desc) && IsAliasDesc(desc) && name != StrKey(TargetOf(desc)) then Some(TargetOf(desc))
      else None
  }

  lemma PipeThree<T>(x: T, f: T -> T, g: T -> T, h: T -> T)
    ensures Pipe(x, [f, g, h]) == h(g(f(x)))
  {
    assert [f, g, h][1..] == [g, h];
    assert [g, h][1..] == [h];
    assert [h][1..] == [];
    assert Pipe(x, [f, g, h]) == Pipe(f(x), [g, h]);
    assert Pipe(f(x), [g, h]) == Pipe(g(f(x)), [h]);
    assert Pipe(g(f(x)), [h]) == Pipe(h(g(f(x))), []);
  }

  /** The three stages that keep the definitions, for one name: the
      definition survives, with its description trimmed, exactly when its
      description is truthy and, trimmed, declares an alias. */
  lemma KeptDefsLookup(defs: Arr<Def>, name: Key)
    requires WellFormed(defs)
    ensures var kept := Pipe(defs, [DropEmptyDescs, TrimDescs, KeepAliasDescs]);
            && WellFormed(kept)
            && Lookup(kept, name) == match Lookup(defs, name)
                                     case None => None
                                     case Some(d) =>
                                       if Truthy(d.desc) && IsAliasDesc(Trim(d.desc)) then Some(TrimDesc(d)) else None
  {
    PipeThree(defs, DropEmptyDescs, TrimDescs, KeepAliasDescs);
    var a := DropEmptyDescs(defs);
    var b := TrimDescs(a);
    var c := KeepAliasDescs(b);
    assert WellFormed(a) && WellFormed(b) && WellFormed(c);
    assert Lookup(b, name) == Lookup(a, name).Apply(TrimDesc);
  }

  /** The alias table holds, for every name, exactly what its own definition
      declares: the pipeline neither invents entries nor lets one definition
      affect another. */
  lemma ParsePropertyDefsLookup(defs: Arr<Def>, name: Key)
    requires WellFormed(defs)
    ensures Lookup(ParsePropertyDefs(defs), name) == DeclaredTarget(defs, name)
  {
    KeptDefsLookup(defs, name);
    var c := Pipe(defs, [DropEmptyDescs, TrimDescs, KeepAliasDescs]);
    MapKeyValueKeepingKeys(c, TargetEntry, DescTarget);
    var t := ToTargets(c);
    assert WellFormed(t);
    assert Lookup(t, name) == Lookup(c, name).Apply(DescTarget);
    assert Lookup(DropSelfAliases(t), name)
        == if HasKey(t, name) && NotSelf(Lookup(t, name).value, name) then Lookup(t, name) else None;
    match Lookup(defs, name)
    case None =>
    case Some(d) =>
      assert Lookup(c, name) == if Truthy(d.desc) && IsAliasDesc(Trim(d.desc)) then Some(TrimDesc(d)) else None;
  }

  /** The alias table never maps a name to itself; a self-declared alias is
      not in the table at all. */
  lemma NoSelfAlias(defs: Arr<Def>, name: string)
    requires WellFormed(defs)
    ensures Lookup(ParsePropertyDefs(defs), StrKey(name)) != Some(name)
  {
    ParsePropertyDefsLookup(defs, StrKey(name));
  }

  // ---------------------------------------------------------------------
  // The description grammar.

  /** An identifier as the target capture reads it: a letter, then word
      characters. */
  predicate IsIdentifier(s: string)
  {
    |s| > 0 && IsLetter(s[0]) && AllIn(s, Word)
  }

  /** Whenever stage 3 lets a description through, the capture of stage 4
      matches, and its group 1 is an identifier. */
  lemma CaptureNeverFails(d: string)
    requires IsAliasDesc(d)
    ensures CaptureTarget(d).Some? && |CaptureTarget(d).value| == 2
    ensures IsIdentifier(TargetOf(d))
  {
    var r := AfterEquals(d).value;
    SpanChars(r, Word);
  }

  /** The rest after `^\s*={1,3}\s*` is the tail of the description. */
  lemma AfterEqualsIsTail(d: string, r: string)
    requires AfterEquals(d) == Some(r)
    ensures r == d[|d| - |r|..]
  {
    var w := Span(d, Space);
    var e := Span(d[w..], Equals);
    var r := d[w..][e..];
    assert r == d[w + e..];
    assert r[Span(r, Space)..] == d[w + e + Span(r, Space)..];
  }

  /** `whole` is a prefix of `d` that ends with `word`, a run of word
      characters that `d` does not continue. */
  predicate EndsWithWord(d: string, whole: string, word: string)
  {
    && 0 < |word| <= |whole| <= |d|
    && whole == d[..|whole|]
    && whole[|whole| - |word|..] == word
    && AllIn(word, Word)
    && (|whole| == |d| || !In(d[|whole|], Word))
  }

  /** What `pregMatcher('/^\s*={1,3}\s*(\w+)/', $desc)` returns: no groups
      when the equals signs are missing or no word character follows them;
      otherwise the whole match, which is a prefix of the description, and
      group 1, which starts right after `^\s*={1,3}\s*`, holds only word
      characters, ends the whole match and cannot be extended. */
  lemma TargetGroups(d: string)
    ensures var g := PregMatcher(CaptureTarget, d);
            g == [] <==> AfterEquals(d).None? || Span(AfterEquals(d).value, Word) == 0
    ensures var g := PregMatcher(CaptureTarget, d);
            g != [] ==>
              && |g| == 2 && EndsWithWord(d, g[0], g[1])
              && AfterEquals(d) == Some(d[|g[0]| - |g[1]|..])
  {
    if AfterEquals(d).Some? && Span(AfterEquals(d).value, Word) > 0 {
      MatchedInPlace(d, AfterEquals(d).value);
    } else {
      NoGroups(d);
    }
  }

  /** When the equals signs leave `r`, which starts with a word character,
      the groups are the prefix of `d` up to the end of the word, and the
      word, which starts where `r` does. */
  lemma MatchedInPlace(d: string, r: string)
    requires AfterEquals(d) == Some(r) && Span(r, Word) > 0
    ensures var g := PregMatcher(CaptureTarget, d);
            |g| == 2 && EndsWithWord(d, g[0], g[1]) && r == d[|g[0]| - |g[1]|..]
  {
    MatchedGroups(d, r);
    AfterEqualsIsTail(d, r);
    SpanChars(r, Word);
    var g := PregMatcher(CaptureTarget, d);
    WordGroupInPlace(d, r, Span(r, Word), g[0], g[1]);
  }

  /** Without the equals signs or a word after them, nothing is captured. */
  lemma NoGroups(d: string)
    requires AfterEquals(d).None? || Span(AfterEquals(d).value, Word) == 0
    ensures PregMatcher(CaptureTarget, d) == []
  {
  }

  /** When the equals signs leave `r`, which starts with a word character,
      `pregMatcher` returns the description up to the end of the word, and
      the word. */
  lemma MatchedGroups(d: string, r: string)
    requires AfterEquals(d) == Some(r) && Span(r, Word) > 0
    ensures var g := PregMatcher(CaptureTarget, d);
            && |g| == 2
            && g[0] == d[..|d| - |r| + Span(r, Word)]
            && g[1] == r[..Span(r, Word)]
  {
    CaptureGroups(d, r);
  }

  /** Group by group, what the target pattern captures after the equals
      signs. */
  lemma CaptureGroups(d: string, r: string)
    requires AfterEquals(d) == Some(r) && Span(r, Word) > 0
    ensures CaptureTarget(d).Some? && |CaptureTarget(d).value| == 2
    ensures CaptureTarget(d).value[0] == d[..|d| - |r| + Span(r, Word)]
    ensures CaptureTarget(d).value[1] == r[..Span(r, Word)]
  {
  }

  /** The groups of a match whose word is the first `n` characters of the
      tail `r` of `d`: a prefix of `d` ending with the word, and the word,
      which `d` does not continue when `r` does not. */
  lemma WordGroupInPlace(d: string, r: string, n: nat, whole: string, word: string)
    requires |r| <= |d| && r == d[|d| - |r|..]
    requires 0 < n <= |r|
    requires n == |r| || !In(r[n], Word)
    requires AllIn(r[..n], Word)
    requires whole == d[..|d| - |r| + n] && word == r[..n]
    ensures EndsWithWord(d, whole, word)
    ensures r == d[|whole| - |word|..]
  {
    assert whole[|d| - |r|..] == word;
    assert |whole| < |d| ==> d[|whole|] == r[n];
  }

  /** Every target in the alias table is an identifier. */
  lemma TargetsAreIdentifiers(defs: Arr<Def>, name: Key)
    requires WellFormed(defs)
    requires HasKey(ParsePropertyDefs(defs), name)
    ensures IsIdentifier(Lookup(ParsePropertyDefs(defs), name).value)
  {
    ParsePropertyDefsLookup(defs, name);
    CaptureNeverFails(Trim(Lookup(defs, name).value.desc));
  }

  /** Leading whitespace, one to three `=` and whitespace are read, and what
      follows is left. */
  lemma AfterEqualsAccepts(ws1: string, k: nat, ws2: string, r: string)
    requires AllIn(ws1, Space) && AllIn(ws2, Space)
    requires 1 <= k <= 3
    requires |r| > 0 && !IsSpace(r[0]) && r[0] != '='
    ensures AfterEquals(ws1 + (Repeat('=', k) + (ws2 + r))) == Some(r)
  {
    var r2 := ws2 + r;
    var eqs := Repeat('=', k) + r2;
    var d := ws1 + eqs;
    SpanOver(ws1, eqs, Space);
    assert d[|ws1|..] == eqs;
    SpanOver(Repeat('=', k), r2, Equals);
    assert eqs[k..] == r2;
    SpanOver(ws2, r, Space);
    assert r2[|ws2|..] == r;
  }

  /** Leading whitespace, one to three `=`, whitespace and a letter declare
      an alias, whose target is the letter with the word characters after it. */
  lemma AliasDescAccepts(ws1: string, k: nat, ws2: string, letter: char, rest: string)
    requires AllIn(ws1, Space) && AllIn(ws2, Space)
    requires 1 <= k <= 3
    requires IsLetter(letter)
    ensures var d := ws1 + (Repeat('=', k) + (ws2 + ([letter] + rest)));
            IsAliasDesc(d) && TargetOf(d) == [letter] + rest[..Span(rest, Word)]
  {
    var r := [letter] + rest;
    var d := ws1 + (Repeat('=', k) + (ws2 + r));
    AfterEqualsAccepts(ws1, k, ws2, r);
    AfterEqualsIsAlias(d, r);
    CaptureAfterEquals(d, r);
    TargetOfCapture(d);
    WordAfterLetter(letter, rest);
  }

  /** Once the `=` run is read, a letter makes the description an alias. */
  lemma AfterEqualsIsAlias(d: string, r: string)
    requires AfterEquals(d) == Some(r)
    requires |r| > 0 && IsLetter(r[0])
    ensures IsAliasDesc(d)
  {
  }

  /** ... and the captured group is the word starting at that letter. */
  lemma CaptureAfterEquals(d: string, r: string)
    requires AfterEquals(d) == Some(r)
    requires |r| > 0 && IsLetter(r[0])
    ensures CaptureTarget(d).Some? && |CaptureTarget(d).value| > 1
    ensures CaptureTarget(d).value[1] == r[..Span(r, Word)]
  {
  }

  /** The target is the first captured group. */
  lemma TargetOfCapture(d: string)
    requires CaptureTarget(d).Some? && |CaptureTarget(d).value| > 1
    ensures TargetOf(d) == CaptureTarget(d).value[1]
  {
  }

  /** The word starting at a letter is that letter and the word after it. */
  lemma WordAfterLetter(letter: char, rest: string)
    requires IsLetter(letter)
    ensures var r := [letter] + rest;
            r[..Span(r, Word)] == [letter] + rest[..Span(rest, Word)]
  {
    var r := [letter] + rest;
    assert r[1..] == rest;
    assert Span(r, Word) == 1 + Span(rest, Word);
  }

  /** Without a `=` after the leading whitespace there is no alias: a plain
      documentation line declares nothing. */
  lemma NoEqualsNoAlias(ws1: string, rest: string)
    requires AllIn(ws1, Space)
    requires |rest| == 0 || (rest[0] != '=' && !IsSpace(rest[0]))
    ensures !IsAliasDesc(ws1 + rest)
  {
    SpanOver(ws1, rest, Space);
    assert (ws1 + rest)[|ws1|..] == rest;
    SpanIs(rest, Equals, 0);
  }

  /** Four or more `=` declare no alias. */
  lemma TooManyEqualsNoAlias(ws1: string, k: nat, rest: string)
    requires AllIn(ws1, Space)
    requires 4 <= k
    requires |rest| == 0 || rest[0] != '='
    ensures !IsAliasDesc(ws1 + (Repeat('=', k) + rest))
  {
    var r := Repeat('=', k) + rest;
    SpanOver(ws1, r, Space);
    assert (ws1 + r)[|ws1|..] == r;
    SpanOver(Repeat('=', k), rest, Equals);
  }
}
