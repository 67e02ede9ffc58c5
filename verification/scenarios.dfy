/**
 The behaviour the repository's test classes exercise, derived from their doc
 comments: `@property` lines of the form `* @property $alias==target`, read
 through the whole pipeline (doc comment, declared properties, alias table,
 resolution, magic methods) for a class without ancestors. Every scenario
 holds under either name rule, so in particular for the library as written. Property names
 are left symbolic: any identifiers with the distinctness the test relies on.
 */
module Scenarios {
  import opened Options
  import opened Text
  import opened PhpArrays
  import opened ClassDocPropertyReader
  import opened AliasTable
  import opened Resolution
  import opened Accessors
  import opened Instance

  /** One `@property` line per entry, `* @property $name` followed by the
      entry's description, each ended by a line break and the space that
      starts the next line of the comment. */
  function DocLines(lines: seq<(string, string)>): string
    decreases |lines|
  {
    if |lines| == 0 then ""
    else Line(lines[0].0, lines[0].1, DocLines(lines[1..]))
  }

  /** `* @property $name` and the description, ending the line; `rest`
      starts after the space on the next line. */
  function Line(name: string, desc: string, rest: string): string
  {
    Declaration(" ", "", " ", name, desc, "\n " + rest)
  }

  /** A line the scanner reads as meant under either name rule: an
      identifier, then a description on the same line that starts with a
      space or `=`, which ends the name. */
  predicate GoodLine(line: (string, string))
  {
    && IsIdentifier(line.0)
    && AllIn(line.1, NotLineBreak)
    && |line.1| > 0 && (line.1[0] == ' ' || line.1[0] == '=')
  }

  /** The matches the lines are meant to produce, in order. */
  function FoundLines(lines: seq<(string, string)>): (ms: seq<Found>)
    ensures |ms| == |lines|
    ensures forall i :: 0 <= i < |lines| ==> ms[i] == Found("", lines[i].0, lines[i].1)
  {
    seq(|lines|, i requires 0 <= i < |lines| => Found("", lines[i].0, lines[i].1))
  }

  /** One line, then whatever follows it on the next line. */
  lemma ScanLine(name: string, desc: string, rest: string, rule: NameRule)
    requires GoodLine((name, desc))
    ensures Matches(Line(name, desc, rest), rule)
         == [Found("", name, desc)] + Matches(rest, rule)
  {
    var tail := "\n " + rest;
    if rule == AsWritten {
      AllInWidens(name, Word, NameAsWritten);
    } else {
      AllInWidens(name, Word, Name);
    }
    ScanDeclaration(" ", "", " ", name, desc, tail, rule);
    ScanSkips(tail, rule);
    assert tail[1..] == " " + rest;
    ScanSkips(tail[1..], rule);
    assert tail[1..][1..] == rest;
  }

  /** Every well-formed line is matched, with its name and description. */
  lemma {:induction false} ScanDocLines(lines: seq<(string, string)>, rule: NameRule)
    requires forall i :: 0 <= i < |lines| ==> GoodLine(lines[i])
    ensures Matches(DocLines(lines), rule) == FoundLines(lines)
    decreases |lines|
  {
    if |lines| > 0 {
      var rest := DocLines(lines[1..]);
      assert DocLines(lines) == Line(lines[0].0, lines[0].1, rest);
      assert GoodLine(lines[0]);
      ScanLine(lines[0].0, lines[0].1, rest, rule);
      ScanDocLines(lines[1..], rule);
      FoundLinesCons(lines);
    }
  }

  lemma FoundLinesCons(lines: seq<(string, string)>)
    requires |lines| > 0
    ensures FoundLines(lines) == [Found("", lines[0].0, lines[0].1)] + FoundLines(lines[1..])
  {
  }

  /** The names of the lines are pairwise distinct. */
  predicate DistinctNames(lines: seq<(string, string)>)
  {
    forall i, j :: 0 <= i < j < |lines| ==> lines[i].0 != lines[j].0
  }

  /** A class without ancestors declares what its own doc comment
      matches, in order. */
  lemma SingleLevel(doc: string, rule: NameRule)
    ensures Properties([Some(doc)], rule) == StoreAll([], Records(Matches(doc, rule)))
  {
    var none: seq<Option<string>> := [];
    AncestorAssignedAfter(none, Some(doc), rule);
    assert none + [Some(doc)] == [Some(doc)];
    assert LevelMatches(none, rule) == [];
    assert Properties(none, rule) == [];
  }

  /** Storing the lines' matches: each name holds its trimmed description,
      and no other name is stored. */
  lemma StoreFoundLines(lines: seq<(string, string)>, name: string)
    requires forall i :: 0 <= i < |lines| ==> GoodLine(lines[i])
    requires DistinctNames(lines)
    ensures forall i :: 0 <= i < |lines| && lines[i].0 == name ==>
              Lookup(StoreAll([], Records(FoundLines(lines))), StrKey(name)) == Some(Def("", Trim(lines[i].1)))
    ensures (forall i :: 0 <= i < |lines| ==> lines[i].0 != name) ==>
              !HasKey(StoreAll([], Records(FoundLines(lines))), StrKey(name))
  {
    var items := Records(FoundLines(lines));
    forall j | 0 <= j < |items|
      ensures items[j].0 == Some(StrKey(lines[j].0))
    {
      assert GoodLine(lines[j]);
      TrimAround("", lines[j].0);
      assert "" + lines[j].0 == lines[j].0;
    }
    forall i | 0 <= i < |lines| && lines[i].0 == name
      ensures Lookup(StoreAll([], items), StrKey(name)) == Some(Def("", Trim(lines[i].1)))
    {
      StoreAllLastWins([], items, i, StrKey(name));
    }
    if forall i :: 0 <= i < |lines| ==> lines[i].0 != name {
      StoreAllUntouched([], items, StrKey(name));
    }
  }

  /** For a class whose only doc comment holds the lines: each line's name
      is declared with its trimmed description, and no other name is. */
  lemma DocLinesProperties(lines: seq<(string, string)>, name: string, rule: NameRule)
    requires forall i :: 0 <= i < |lines| ==> GoodLine(lines[i])
    requires DistinctNames(lines)
    ensures forall i :: 0 <= i < |lines| && lines[i].0 == name ==>
              Lookup(Properties([Some(DocLines(lines))], rule), StrKey(name)) == Some(Def("", Trim(lines[i].1)))
    ensures (forall i :: 0 <= i < |lines| ==> lines[i].0 != name) ==>
              !HasKey(Properties([Some(DocLines(lines))], rule), StrKey(name))
  {
    SingleLevel(DocLines(lines), rule);
    ScanDocLines(lines, rule);
    StoreFoundLines(lines, name);
  }

  // ---------------------------------------------------------------------
  // Alias declarations.

  /** The description after the name in `$alias==target` (`spaced` false)
      or `$alias == target` (`spaced` true). */
  function AliasText(spaced: bool, target: string): string
  {
    Pad(spaced) + AliasCore(spaced, target)
  }

  function Pad(spaced: bool): string
  {
    if spaced then " " else ""
  }

  /** What the trimmed description keeps of `AliasText`. */
  function AliasCore(spaced: bool, target: string): string
  {
    "==" + (Pad(spaced) + target)
  }

  /** Trimming the description drops the leading space only. */
  lemma AliasTextTrims(spaced: bool, target: string)
    requires IsIdentifier(target)
    ensures Trim(AliasText(spaced, target)) == AliasCore(spaced, target)
    ensures Trim(AliasCore(spaced, target)) == AliasCore(spaced, target)
  {
    var core := AliasCore(spaced, target);
    assert core[|core| - 1] == target[|target| - 1];
    TrimAround(Pad(spaced), core);
    TrimAround("", core);
    assert "" + core == core;
  }

  /** `==`, optional whitespace and an identifier declare an alias of that
      identifier. */
  lemma EqualsIdentifier(ws: string, target: string)
    requires AllIn(ws, Space)
    requires IsIdentifier(target)
    ensures IsAliasDesc("==" + (ws + target)) && TargetOf("==" + (ws + target)) == target
  {
    var letter, rest := target[0], target[1..];
    assert [letter] + rest == target;
    SpanIs(rest, Word, |rest|);
    assert [letter] + rest[..Span(rest, Word)] == target;
    assert Repeat('=', 2) == "==";
    assert "" + (Repeat('=', 2) + (ws + ([letter] + rest))) == "==" + (ws + target);
    AliasDescAccepts("", 2, ws, letter, rest);
  }

  /** The trimmed description declares an alias of `target`. */
  lemma AliasCoreDeclares(spaced: bool, target: string)
    requires IsIdentifier(target)
    ensures var core := AliasCore(spaced, target);
            Truthy(core) && IsAliasDesc(core) && TargetOf(core) == target
  {
    assert AllIn(Pad(spaced), Space);
    EqualsIdentifier(Pad(spaced), target);
  }

  /** The description stays on its line and ends the name before it. */
  lemma AliasTextOnItsLine(name: string, spaced: bool, target: string)
    requires IsIdentifier(name) && IsIdentifier(target)
    ensures GoodLine((name, AliasText(spaced, target)))
  {
    AllInWidens(target, Word, NotLineBreak);
    assert AllIn(Pad(spaced), NotLineBreak);
    AllInConcat(Pad(spaced), target, NotLineBreak);
    AllInConcat("==", Pad(spaced) + target, NotLineBreak);
    AllInConcat(Pad(spaced), AliasCore(spaced, target), NotLineBreak);
    assert AliasText(spaced, target)[0] == if spaced then ' ' else '=';
  }

  /** A definition whose description is an alias text declares that alias,
      unless it names the definition itself. */
  lemma DeclaredAlias(defs: Arr<Def>, name: string, spaced: bool, target: string)
    requires IsIdentifier(target)
    requires Lookup(defs, StrKey(name)) == Some(Def("", Trim(AliasText(spaced, target))))
    ensures DeclaredTarget(defs, StrKey(name)) == if name == target then None else Some(target)
  {
    AliasTextTrims(spaced, target);
    AliasCoreDeclares(spaced, target);
  }

  /** A declared `$name==target` line puts `name` to `target` in the alias
      table, unless the target is the name itself. */
  lemma DeclaredAliasLine(lines: seq<(string, string)>, i: nat, spaced: bool, target: string, rule: NameRule)
    requires forall j :: 0 <= j < |lines| ==> GoodLine(lines[j])
    requires DistinctNames(lines)
    requires i < |lines| && lines[i].1 == AliasText(spaced, target)
    requires IsIdentifier(target)
    ensures Lookup(DeclaredAliases([Some(DocLines(lines))], rule), StrKey(lines[i].0))
         == if lines[i].0 == target then None else Some(target)
  {
    DocLinesProperties(lines, lines[i].0, rule);
    DeclaredAlias(Properties([Some(DocLines(lines))], rule), lines[i].0, spaced, target);
  }

  /** A name no line declares is not an alias. */
  lemma UndeclaredName(lines: seq<(string, string)>, name: string, rule: NameRule)
    requires forall j :: 0 <= j < |lines| ==> GoodLine(lines[j])
    requires DistinctNames(lines)
    requires forall j :: 0 <= j < |lines| ==> lines[j].0 != name
    ensures !IsAliased(DeclaredAliases([Some(DocLines(lines))], rule), name)
  {
    DocLinesProperties(lines, name, rule);
  }

  // ---------------------------------------------------------------------
  // BasicTest: `@property $bar==foo` and `@property $goo==zoo`.

  predicate BasicNames(bar: string, foo: string, goo: string, zoo: string)
  {
    && IsIdentifier(bar) && IsIdentifier(foo) && IsIdentifier(goo) && IsIdentifier(zoo)
    && bar != goo && foo != bar && foo != goo && zoo != bar && zoo != goo
  }

  function BasicDoc(bar: string, foo: string, goo: string, zoo: string): string
  {
    DocLines([(bar, AliasText(false, foo)), (goo, AliasText(false, zoo))])
  }

  /** The alias table of the class: `bar` to `foo`, `goo` to `zoo`. */
  lemma BasicTable(bar: string, foo: string, goo: string, zoo: string, n: string, rule: NameRule)
    requires BasicNames(bar, foo, goo, zoo)
    ensures Lookup(DeclaredAliases([Some(BasicDoc(bar, foo, goo, zoo))], rule), StrKey(n))
         == if n == bar then Some(foo) else if n == goo then Some(zoo) else None
  {
    var lines := [(bar, AliasText(false, foo)), (goo, AliasText(false, zoo))];
    AliasTextOnItsLine(bar, false, foo);
    AliasTextOnItsLine(goo, false, zoo);
    if n == bar {
      DeclaredAliasLine(lines, 0, false, foo, rule);
    } else if n == goo {
      DeclaredAliasLine(lines, 1, false, zoo, rule);
    } else {
      UndeclaredName(lines, n, rule);
    }
  }

  /** On a table of two aliases of plain properties: an alias reads and
      writes its target, and a write to the target is read through the
      alias. */
  lemma TwoAliasesIo(t: Table, bar: string, foo: string, goo: string, zoo: string, f: Fields, v: Value, w: Value)
    requires forall n :: Lookup(t, StrKey(n)) == if n == bar then Some(foo) else if n == goo then Some(zoo) else None
    requires foo != bar && foo != goo && zoo != bar && zoo != goo
    ensures Acyclic(t)
    ensures Get(t, f, bar) == (if foo in f then Some(f[foo]) else None)
    ensures Set(t, f, bar, v) == f[foo := v]
    ensures Get(t, f[foo := w], bar) == Some(w)
  {
    assert IsAliased(t, bar);
    RankedAcyclic(t, n => if n == bar || n == goo then 1 else 0);
    assert Unalias(t, bar) == foo;
  }

  /** BasicTest::testIo and testUndefined: reading `bar` reads `foo`,
      writing `bar` writes `foo`, writing `foo` is read back through `bar`,
      and a name neither declared nor held reads as undefined. */
  lemma BasicTest(bar: string, foo: string, goo: string, zoo: string, undefined: string, f: Fields, v: Value, w: Value, rule: NameRule)
    requires BasicNames(bar, foo, goo, zoo)
    requires undefined != bar && undefined != goo && undefined !in f
    ensures var o := New([Some(BasicDoc(bar, foo, goo, zoo))], rule, f);
            && Resolvable(o)
            && IsAliasedProperty(o, bar).1 && IsAliasedProperty(o, goo).1 && !IsAliasedProperty(o, foo).1
            && MagicGet(o, bar).1 == (if foo in f then Some(f[foo]) else None)
            && MagicSet(o, bar, v).fields == f[foo := v]
            && MagicGet(o.(fields := f[foo := w]), bar).1 == Some(w)
            && MagicGet(o, undefined).1 == None
  {
    var docs := [Some(BasicDoc(bar, foo, goo, zoo))];
    var t := DeclaredAliases(docs, rule);
    forall n
      ensures Lookup(t, StrKey(n)) == if n == bar then Some(foo) else if n == goo then Some(zoo) else None
    {
      BasicTable(bar, foo, goo, zoo, n, rule);
    }
    TwoAliasesIo(t, bar, foo, goo, zoo, f, v, w);
    assert !IsAliased(t, undefined);
  }

  // ---------------------------------------------------------------------
  // MultiLevelAliasTest: `$alias_of_foo==foo`,
  // `$alias_of_alias_of_foo==alias_of_foo` and
  // `$alias_of_alias_of_alias_of_foo==alias_of_alias_of_foo`.

  predicate ChainNames(foo: string, a1: string, a2: string, a3: string)
  {
    && IsIdentifier(foo) && IsIdentifier(a1) && IsIdentifier(a2) && IsIdentifier(a3)
    && foo != a1 && foo != a2 && foo != a3 && a1 != a2 && a1 != a3 && a2 != a3
  }

  function ChainDoc(foo: string, a1: string, a2: string, a3: string): string
  {
    DocLines([(a1, AliasText(false, foo)), (a2, AliasText(false, a1)), (a3, AliasText(false, a2))])
  }

  /** The alias table of the class: `a1` to `foo`, `a2` to `a1`, `a3` to `a2`. */
  lemma ChainTable(foo: string, a1: string, a2: string, a3: string, n: string, rule: NameRule)
    requires ChainNames(foo, a1, a2, a3)
    ensures Lookup(DeclaredAliases([Some(ChainDoc(foo, a1, a2, a3))], rule), StrKey(n))
         == if n == a1 then Some(foo) else if n == a2 then Some(a1) else if n == a3 then Some(a2) else None
  {
    var lines := [(a1, AliasText(false, foo)), (a2, AliasText(false, a1)), (a3, AliasText(false, a2))];
    AliasTextOnItsLine(a1, false, foo);
    AliasTextOnItsLine(a2, false, a1);
    AliasTextOnItsLine(a3, false, a2);
    if n == a1 {
      DeclaredAliasLine(lines, 0, false, foo, rule);
    } else if n == a2 {
      DeclaredAliasLine(lines, 1, false, a1, rule);
    } else if n == a3 {
      DeclaredAliasLine(lines, 2, false, a2, rule);
    } else {
      UndeclaredName(lines, n, rule);
    }
  }

  /** On a three-step chain ending at `foo`: the last alias resolves to
      `foo` and reads, writes and unsets it. */
  lemma ChainIo(t: Table, foo: string, a1: string, a2: string, a3: string, f: Fields, v: Value, w: Value)
    requires forall n :: Lookup(t, StrKey(n)) == if n == a1 then Some(foo) else if n == a2 then Some(a1) else if n == a3 then Some(a2) else None
    requires foo != a1 && foo != a2 && foo != a3 && a1 != a2 && a1 != a3 && a2 != a3
    ensures Acyclic(t)
    ensures Unalias(t, a3) == foo
    ensures Get(t, f, a3) == (if foo in f then Some(f[foo]) else None)
    ensures Set(t, f, a3, v) == f[foo := v]
    ensures Get(t, f[foo := w], a3) == Some(w)
    ensures Unset(t, f, a3) == f - {foo} && !Isset(t, Unset(t, f, a3), a3)
  {
    var keys := {StrKey(a1), StrKey(a2), StrKey(a3)};
    assert |keys| == 3;
    KeysBound(t, keys);
    RankedAcyclic(t, n => if n == a3 then 3 else if n == a2 then 2 else if n == a1 then 1 else 0);
    UnaliasThroughTarget(t, a3);
    UnaliasThroughTarget(t, a2);
    UnaliasThroughTarget(t, a1);
  }

  /** MultiLevelAliasTest::testIo: reading, writing and unsetting the
      third-level alias act on `foo`, and a write to `foo` is read back
      through it. */
  lemma MultiLevelTest(foo: string, a1: string, a2: string, a3: string, f: Fields, v: Value, w: Value, rule: NameRule)
    requires ChainNames(foo, a1, a2, a3)
    ensures var o := New([Some(ChainDoc(foo, a1, a2, a3))], rule, f);
            && Resolvable(o)
            && UnaliasPropertyName(o, a3).1 == foo
            && MagicGet(o, a3).1 == (if foo in f then Some(f[foo]) else None)
            && MagicSet(o, a3, v).fields == f[foo := v]
            && MagicGet(o.(fields := f[foo := w]), a3).1 == Some(w)
            && !MagicIsset(MagicUnset(o, a3), a3).1
  {
    var docs := [Some(ChainDoc(foo, a1, a2, a3))];
    var t := DeclaredAliases(docs, rule);
    forall n
      ensures Lookup(t, StrKey(n)) == if n == a1 then Some(foo) else if n == a2 then Some(a1) else if n == a3 then Some(a2) else None
    {
      ChainTable(foo, a1, a2, a3, n, rule);
    }
    ChainIo(t, foo, a1, a2, a3, f, v, w);
  }

  // ---------------------------------------------------------------------
  // LoopBackTest: `$alias_to_self == alias_to_self`.

  function LoopBackDoc(name: string): string
  {
    DocLines([(name, AliasText(true, name))])
  }

  /** The self-alias is dropped: the table has no string keys at all. */
  lemma LoopBackTable(name: string, n: string, rule: NameRule)
    requires IsIdentifier(name)
    ensures !IsAliased(DeclaredAliases([Some(LoopBackDoc(name))], rule), n)
  {
    var lines := [(name, AliasText(true, name))];
    AliasTextOnItsLine(name, true, name);
    if n == name {
      DeclaredAliasLine(lines, 0, true, name, rule);
    } else {
      UndeclaredName(lines, n, rule);
    }
  }

  /** LoopBackTest::testGetSetUnset: the name is not an alias, so it is an
      ordinary property: unset at first, set and readable after a write,
      unset again after `unset`. */
  lemma LoopBackTest(name: string, f: Fields, v: Value, rule: NameRule)
    requires IsIdentifier(name)
    requires name !in f && v != Null
    ensures var o := New([Some(LoopBackDoc(name))], rule, f);
            && Resolvable(o)
            && !IsAliasedProperty(o, name).1
            && !MagicIsset(o, name).1
            && var o2 := MagicSet(o, name, v);
               && MagicIsset(o2, name).1
               && MagicGet(o2, name).1 == Some(v)
               && !MagicIsset(MagicUnset(o2, name), name).1
  {
    var t := DeclaredAliases([Some(LoopBackDoc(name))], rule);
    forall n
      ensures !IsAliased(t, n)
    {
      LoopBackTable(name, n, rule);
    }
    RankedAcyclic(t, n => 0);
  }

  // ---------------------------------------------------------------------
  // AliasToNonExistingPropertyTest:
  // `$alias_to_non_existing_property == non_existing_property`.

  function MissingTargetDoc(alias: string, target: string): string
  {
    DocLines([(alias, AliasText(true, target))])
  }

  lemma MissingTargetTable(alias: string, target: string, n: string, rule: NameRule)
    requires IsIdentifier(alias) && IsIdentifier(target) && alias != target
    ensures Lookup(DeclaredAliases([Some(MissingTargetDoc(alias, target))], rule), StrKey(n))
         == if n == alias then Some(target) else None
  {
    var lines := [(alias, AliasText(true, target))];
    AliasTextOnItsLine(alias, true, target);
    if n == alias {
      DeclaredAliasLine(lines, 0, true, target, rule);
    } else {
      UndeclaredName(lines, n, rule);
    }
  }

  /** AliasToNonExistingPropertyTest: with no property behind the alias,
      reading it finds nothing, writing it creates the target property,
      and unsetting it changes nothing (and ends). */
  lemma MissingTargetTest(alias: string, target: string, f: Fields, v: Value, rule: NameRule)
    requires IsIdentifier(alias) && IsIdentifier(target) && alias != target
    requires target !in f
    ensures var o := New([Some(MissingTargetDoc(alias, target))], rule, f);
            && Resolvable(o)
            && MagicGet(o, alias).1 == None
            && MagicSet(o, alias, v).fields == f[target := v]
            && MagicUnset(o, alias).fields == f
  {
    var t := DeclaredAliases([Some(MissingTargetDoc(alias, target))], rule);
    forall n
      ensures Lookup(t, StrKey(n)) == if n == alias then Some(target) else None
    {
      MissingTargetTable(alias, target, n, rule);
    }
    OneAliasIo(t, alias, target, f, v);
  }

  /** On a table of one alias: the alias acts on its target. */
  lemma OneAliasIo(t: Table, alias: string, target: string, f: Fields, v: Value)
    requires forall n :: Lookup(t, StrKey(n)) == if n == alias then Some(target) else None
    requires alias != target
    ensures Acyclic(t)
    ensures Get(t, f, alias) == (if target in f then Some(f[target]) else None)
    ensures Set(t, f, alias, v) == f[target := v]
    ensures target !in f ==> Unset(t, f, alias) == f
  {
    assert IsAliased(t, alias);
    RankedAcyclic(t, n => if n == alias then 1 else 0);
    assert Unalias(t, alias) == target;
    if target !in f {
      UnsetMissingIsNoOp(t, f, alias);
    }
  }

  // ---------------------------------------------------------------------
  // PropertyAliasTraitTest: the test class itself uses the trait, declares
  // `@property $bar==foo` and has a property `foo` that starts out set.

  function TraitTestDoc(bar: string, foo: string): string
  {
    DocLines([(bar, AliasText(false, foo))])
  }

  lemma TraitTestTable(bar: string, foo: string, n: string, rule: NameRule)
    requires IsIdentifier(bar) && IsIdentifier(foo) && bar != foo
    ensures Lookup(DeclaredAliases([Some(TraitTestDoc(bar, foo))], rule), StrKey(n))
         == if n == bar then Some(foo) else None
  {
    var lines := [(bar, AliasText(false, foo))];
    AliasTextOnItsLine(bar, false, foo);
    if n == bar {
      DeclaredAliasLine(lines, 0, false, foo, rule);
    } else {
      UndeclaredName(lines, n, rule);
    }
  }

  /** PropertyAliasTraitTest::testIo: `bar` reads `foo`; after a write to
      `bar`, `foo` holds the value written; after a later write to `foo`,
      `bar` reads that value. */
  lemma PropertyAliasTraitTest(bar: string, foo: string, f: Fields, v: Value, w: Value, rule: NameRule)
    requires IsIdentifier(bar) && IsIdentifier(foo) && bar != foo
    requires foo in f
    ensures var o := New([Some(TraitTestDoc(bar, foo))], rule, f);
            && Resolvable(o)
            && MagicGet(o, bar).1 == Some(f[foo])
            && var o2 := MagicSet(o, bar, v);
               && o2.fields == f[foo := v]
               && MagicGet(o2.(fields := o2.fields[foo := w]), bar).1 == Some(w)
  {
    var t := DeclaredAliases([Some(TraitTestDoc(bar, foo))], rule);
    forall n
      ensures Lookup(t, StrKey(n)) == if n == bar then Some(foo) else None
    {
      TraitTestTable(bar, foo, n, rule);
    }
    OneAliasIo(t, bar, foo, f, v);
    OneAliasIo(t, bar, foo, f[foo := v][foo := w], v);
  }
}
