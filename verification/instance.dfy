/**
 An object using the trait: the doc comments of its class and ancestors, the
 alias table once it has been built (`$_property_aliases`, null until then),
 and its properties.

 Every public method of the trait first calls `preparePropertyAliasMap()`,
 which builds the table on first use and keeps it afterwards; each operation
 here therefore returns the object as it is after the call together with the
 call's result.
 */
module Instance {
  import opened Options
  import opened PhpArrays
  import opened ClassDocPropertyReader
  import opened AliasTable
  import opened Resolution
  import opened Accessors

  /** `docs`: the doc comment of the class, then of each ancestor up to the
      root (None where a class has none). `rule`: how the reader ends a
      declared name; the library as written is `AsWritten`. */
  datatype Object = Object(docs: seq<Option<string>>, rule: NameRule, aliases: Option<Table>, fields: Fields)

  /** The alias table the class's doc comments declare. */
  function DeclaredAliases(docs: seq<Option<string>>, rule: NameRule): (t: Table)
    ensures WellFormed(t)
    ensures forall name :: Lookup(t, name) == DeclaredTarget(Properties(docs, rule), name)
  {
    var defs := Properties(docs, rule);
    forall name ensures Lookup(ParsePropertyDefs(defs), name) == DeclaredTarget(defs, name) {
      ParsePropertyDefsLookup(defs, name);
    }
    ParsePropertyDefs(defs)
  }

  /** A table, once built, is the one the doc comments declare. */
  predicate Consistent(o: Object)
  {
    o.aliases.Some? ==> o.aliases.value == DeclaredAliases(o.docs, o.rule)
  }

  /** A freshly constructed object: no table yet. */
  function New(docs: seq<Option<string>>, rule: NameRule, fields: Fields): (o: Object)
    ensures Consistent(o) && o.aliases.None?
  {
    Object(docs, rule, None, fields)
  }

  /** `preparePropertyAliasMap()`: `$_property_aliases ??= ...`. The table is
      built when missing and never rebuilt; nothing else changes. */
  function Prepare(o: Object): (r: Object)
    ensures r.aliases.Some?
    ensures r.docs == o.docs && r.rule == o.rule && r.fields == o.fields
    ensures o.aliases.Some? ==> r == o
    ensures Consistent(o) ==> Consistent(r)
  {
    if o.aliases.Some? then o
    else o.(aliases := Some(ParsePropertyDefs(Properties(o.docs, o.rule))))
  }

  /** Preparing twice is preparing once. */
  lemma PrepareIdempotent(o: Object)
    ensures Prepare(Prepare(o)) == Prepare(o)
  {
  }

  /** `aliasedProperties()`: the declared table, the same on every call. */
  function AliasedProperties(o: Object): (res: (Object, Table))
    requires Consistent(o)
    ensures res.0 == Prepare(o) && Consistent(res.0)
    ensures res.1 == DeclaredAliases(o.docs, o.rule)
  {
    var p := Prepare(o);
    (p, p.aliases.value)
  }

  /** Asking again returns the same table and leaves the object as it is. */
  lemma AliasedPropertiesStable(o: Object)
    requires Consistent(o)
    ensures var (o1, t1) := AliasedProperties(o);
            AliasedProperties(o1) == (o1, t1)
  {
  }

  /** `isAliasedProperty($name)`: whether the doc comments declare the name
      as an alias of another property. */
  function IsAliasedProperty(o: Object, name: string): (res: (Object, bool))
    requires Consistent(o)
    ensures res.0 == Prepare(o)
    ensures res.1 <==> DeclaredTarget(Properties(o.docs, o.rule), StrKey(name)).Some?
  {
    var p := Prepare(o);
    (p, IsAliased(p.aliases.value, name))
  }

  /** `unaliasPropertyName($name)` ends on the object's declared aliases:
      the name's own chain leaves the table, whatever other aliases do. */
  predicate NameResolves(o: Object, name: string)
  {
    Resolves(DeclaredAliases(o.docs, o.rule), name)
  }

  /** Every name of the object resolves: the declared aliases never lead
      into a cycle. */
  ghost predicate Resolvable(o: Object)
  {
    Acyclic(DeclaredAliases(o.docs, o.rule))
  }

  /** `unaliasPropertyName($name)` on the object's table. */
  function UnaliasPropertyName(o: Object, name: string): (res: (Object, string))
    requires Consistent(o) && NameResolves(o, name)
    ensures res.0 == Prepare(o)
    ensures res.1 == Unalias(DeclaredAliases(o.docs, o.rule), name)
  {
    var p := Prepare(o);
    (p, Unalias(p.aliases.value, name))
  }

  /** `unaliasProperties($kvp)` on the object's table. */
  function UnaliasPropertiesOf<V>(o: Object, kvp: Arr<V>): (res: (Object, Arr<V>))
    requires Consistent(o)
    requires KeysResolve(DeclaredAliases(o.docs, o.rule), kvp)
    ensures res.0 == Prepare(o)
    ensures res.1 == UnaliasProperties(DeclaredAliases(o.docs, o.rule), kvp)
  {
    var p := Prepare(o);
    (p, UnaliasProperties(p.aliases.value, kvp))
  }

  /** `$obj->name` for a name that is not a property of the object. */
  function MagicGet(o: Object, name: string): (res: (Object, Option<Value>))
    requires Consistent(o) && NameResolves(o, name)
    ensures res.0 == Prepare(o)
    ensures res.1 == Get(DeclaredAliases(o.docs, o.rule), o.fields, name)
  {
    var p := Prepare(o);
    (p, Get(p.aliases.value, p.fields, name))
  }

  /** `$obj->name = $value` for a name that is not a property of the object. */
  function MagicSet(o: Object, name: string, v: Value): (r: Object)
    requires Consistent(o) && NameResolves(o, name)
    ensures Consistent(r) && r.docs == o.docs && r.rule == o.rule && r.aliases.Some?
    ensures r.fields == Set(DeclaredAliases(o.docs, o.rule), o.fields, name, v)
  {
    var p := Prepare(o);
    p.(fields := Set(p.aliases.value, p.fields, name, v))
  }

  /** `isset($obj->name)` for a name that is not a property of the object. */
  function MagicIsset(o: Object, name: string): (res: (Object, bool))
    requires Consistent(o) && NameResolves(o, name)
    ensures res.0 == Prepare(o)
    ensures res.1 == Isset(DeclaredAliases(o.docs, o.rule), o.fields, name)
  {
    var p := Prepare(o);
    (p, Isset(p.aliases.value, p.fields, name))
  }

  /** `unset($obj->name)` for a name that is not a property of the object. */
  function MagicUnset(o: Object, name: string): (r: Object)
    requires Consistent(o) && NameResolves(o, name)
    ensures Consistent(r) && r.docs == o.docs && r.rule == o.rule && r.aliases.Some?
    ensures r.fields == Unset(DeclaredAliases(o.docs, o.rule), o.fields, name)
  {
    var p := Prepare(o);
    p.(fields := Unset(p.aliases.value, p.fields, name))
  }

  /** Reading a name right after writing it through the object yields the
      written value, whether or not the table was built before. */
  lemma MagicSetThenGet(o: Object, name: string, v: Value)
    requires Consistent(o) && NameResolves(o, name)
    ensures MagicGet(MagicSet(o, name, v), name).1 == Some(v)
  {
  }
}
