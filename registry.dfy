/** The field registry a config class builds when it is created (`_get_fields`, `_get_fields_by_mro`,
    `ConfigMeta.__new__`): inherited fields first, then the class's own fields by creation index, merged into
    one insertion-ordered dictionary, plus its constant and derivable views. */
module Registry {
  import opened Outcomes
  import opened OrderedMaps
  import opened Fields

  /** A declared field under its attribute name. */
  type Entry = (string, Field)

  /** A class attribute: a field, or any other class member (`None`). */
  type Attr = (string, Option<Field>)

  /** The attributes that are fields, in attribute order. */
  function FieldEntries(attrs: seq<Attr>): (r: seq<Entry>)
    ensures |r| <= |attrs|
    ensures forall i :: 0 <= i < |r| ==> (r[i].0, Some(r[i].1)) in attrs
    ensures forall i :: 0 <= i < |attrs| && attrs[i].1.Some? ==> (attrs[i].0, attrs[i].1.value) in r
  {
    if attrs == [] then []
    else
      var head := match attrs[0].1 case Some(f) => [(attrs[0].0, f)] case None => [];
      head + FieldEntries(attrs[1..])
  }

  predicate SortedByIndex(es: seq<Entry>) {
    forall i, j :: 0 <= i < j < |es| ==> es[i].1.creationIndex <= es[j].1.creationIndex
  }

  /** Inserts `e` before the first entry with a creation index that is not smaller. */
  function InsertByIndex(e: Entry, es: seq<Entry>): (r: seq<Entry>)
    requires SortedByIndex(es)
    ensures SortedByIndex(r) && multiset(r) == multiset(es) + multiset{e}
    ensures |r| == |es| + 1 && (r[0] == e || (es != [] && r[0] == es[0]))
  {
    if es == [] || e.1.creationIndex <= es[0].1.creationIndex then
      SortedCons(e, es);
      [e] + es
    else
      var rest := InsertByIndex(e, es[1..]);
      assert es == [es[0]] + es[1..];
      assert rest[0] == e || rest[0] == es[1];
      SortedCons(es[0], rest);
      [es[0]] + rest
  }

  /** An entry with an index no larger than the first of a sorted list can go in front of it. */
  lemma SortedCons(x: Entry, es: seq<Entry>)
    requires SortedByIndex(es)
    requires es == [] || x.1.creationIndex <= es[0].1.creationIndex
    ensures SortedByIndex([x] + es)
  {
    var r := [x] + es;
    forall i, j | 0 <= i < j < |r| ensures r[i].1.creationIndex <= r[j].1.creationIndex {
      assert r[j] == es[j - 1];
      if i > 0 {
        assert r[i] == es[i - 1];
      } else if j > 1 {
        assert es[0].1.creationIndex <= es[j - 1].1.creationIndex;
      }
    }
  }

  /** `fields.sort(key=lambda pair: pair[1]._creation_index)`: a stable sort by creation index. */
  function SortByIndex(es: seq<Entry>): (r: seq<Entry>)
    ensures SortedByIndex(r) && multiset(r) == multiset(es)
  {
    if es == [] then []
    else
      assert es == [es[0]] + es[1..];
      InsertByIndex(es[0], SortByIndex(es[1..]))
  }

  /** `_get_fields(attrs, Field, ordered=True)`: the field attributes of one class, by creation index. */
  function GetFields(attrs: seq<Attr>): seq<Entry> {
    SortByIndex(FieldEntries(attrs))
  }

  /** A field that is a class attribute is among that class's fields, and only those are. */
  lemma GetFieldsMembers(attrs: seq<Attr>, name: string, f: Field)
    ensures (name, f) in GetFields(attrs) <==> (name, Some(f)) in attrs
  {
    var es := FieldEntries(attrs);
    assert (name, f) in GetFields(attrs) <==> (name, f) in multiset(es);
    if (name, Some(f)) in attrs {
      var i :| 0 <= i < |attrs| && attrs[i] == (name, Some(f));
      assert (attrs[i].0, attrs[i].1.value) in es;
    }
    if (name, f) in es {
      var i :| 0 <= i < |es| && es[i] == (name, f);
      assert (es[i].0, Some(es[i].1)) in attrs;
    }
  }

  /** `_get_fields_by_mro`: the ancestors' field lists, most distant ancestor first, concatenated. */
  function Inherited(ancestors: seq<seq<Attr>>): seq<Entry> {
    if ancestors == [] then []
    else Inherited(ancestors[..|ancestors| - 1]) + GetFields(ancestors[|ancestors| - 1])
  }

  /** `_declared_fields = OrderedDict(inherited_fields + cls_fields)`. */
  function Declared(ancestors: seq<seq<Attr>>, own: seq<Attr>): seq<Entry> {
    FromPairs(Inherited(ancestors) + GetFields(own))
  }

  /** `_constant_fields`: the declared constants, in declared order. */
  function ConstantView(declared: seq<Entry>): seq<Entry> {
    Filter(declared, (f: Field) => f.kind == Constant)
  }

  /** `_deriable_fields`: the declared derivables, in declared order. */
  function DerivableView(declared: seq<Entry>): seq<Entry> {
    Filter(declared, (f: Field) => f.kind == Derivable)
  }

  /** The registry has one entry per name, names in the order of their first declaration, each bound to the
      field declared for it last. */
  lemma DeclaredSpec(ancestors: seq<seq<Attr>>, own: seq<Attr>)
    ensures var all := Inherited(ancestors) + GetFields(own);
            && UniqueKeys(Declared(ancestors, own))
            && Keys(Declared(ancestors, own)) == Dedup(Keys(all))
            && (forall k :: HasKey(Declared(ancestors, own), k) <==> HasKey(all, k))
            && (forall k :: HasKey(all, k) ==> Get(Declared(ancestors, own), k) == LastValue(all, k))
  {
    FromPairsSpec(Inherited(ancestors) + GetFields(own));
  }

  /** Inherited names come first: the registry's names begin with the inherited names, each once. */
  lemma InheritedFirst(ancestors: seq<seq<Attr>>, own: seq<Attr>)
    ensures var inh := Dedup(Keys(Inherited(ancestors)));
            |inh| <= |Declared(ancestors, own)| && Keys(Declared(ancestors, own))[..|inh|] == inh
  {
    FromPairsPrefix(Inherited(ancestors), GetFields(own));
  }

  /** When the class declares no inherited name again, its own fields follow the inherited ones in creation
      order. */
  lemma OwnAfterInherited(ancestors: seq<seq<Attr>>, own: seq<Attr>)
    requires forall k :: k in Keys(GetFields(own)) ==> k !in Keys(Inherited(ancestors))
    ensures Keys(Declared(ancestors, own)) == Dedup(Keys(Inherited(ancestors))) + Dedup(Keys(GetFields(own)))
    ensures SortedByIndex(GetFields(own))
  {
    FromPairsDisjoint(Inherited(ancestors), GetFields(own));
  }

  /** A name the class redeclares keeps the position it had among the inherited names and takes the class's
      own field. */
  lemma Redeclared(ancestors: seq<seq<Attr>>, own: seq<Attr>, k: string)
    requires HasKey(Inherited(ancestors), k) && HasKey(GetFields(own), k)
    ensures var inh := Dedup(Keys(Inherited(ancestors)));
            && |inh| <= |Declared(ancestors, own)|
            && k in Keys(Declared(ancestors, own))[..|inh|]
            && HasKey(Declared(ancestors, own), k)
            && Get(Declared(ancestors, own), k) == LastValue(GetFields(own), k)
  {
    var a := Inherited(ancestors);
    var b := GetFields(own);
    InheritedFirst(ancestors, own);
    LastValueAppend(a, b, k);
    FromPairsSpec(a + b);
  }

  /** The views split the registry: every declared field is in exactly one of them, according to its class,
      and a name is a constant exactly when it is declared with a constant field. */
  lemma ViewsPartition(declared: seq<Entry>)
    requires UniqueKeys(declared)
    ensures |ConstantView(declared)| + |DerivableView(declared)| == |declared|
    ensures forall i :: 0 <= i < |declared| ==>
              (declared[i] in ConstantView(declared) <==> declared[i].1.kind == Constant)
    ensures forall i :: 0 <= i < |declared| ==>
              (declared[i] in DerivableView(declared) <==> declared[i].1.kind == Derivable)
    ensures forall k :: HasKey(ConstantView(declared), k) <==> HasKey(declared, k) && Get(declared, k).kind == Constant
    ensures forall k :: HasKey(ConstantView(declared), k) ==> Get(ConstantView(declared), k) == Get(declared, k)
  {
    var isConstant := (f: Field) => f.kind == Constant;
    var isDerivable := (f: Field) => f.kind == Derivable;
    FilterSplit(declared, isConstant, isDerivable);
    var c := ConstantView(declared);
    var d := DerivableView(declared);
    forall i | 0 <= i < |declared| ensures declared[i] in c ==> declared[i].1.kind == Constant {
      if declared[i] in c {
        var j :| 0 <= j < |c| && c[j] == declared[i];
        assert isConstant(c[j].1);
      }
    }
    forall i | 0 <= i < |declared| ensures declared[i] in d ==> declared[i].1.kind == Derivable {
      if declared[i] in d {
        var j :| 0 <= j < |d| && d[j] == declared[i];
        assert isDerivable(d[j].1);
      }
    }
    forall k ensures (HasKey(c, k) <==> HasKey(declared, k) && Get(declared, k).kind == Constant)
                  && (HasKey(c, k) ==> Get(c, k) == Get(declared, k)) {
      FilterGet(declared, isConstant, k);
    }
  }

  /** Both views list their fields in declared order: the `i`-th field of a view is the table's field at the
      `i`-th index of that kind, and those indices increase. */
  lemma ViewsOrder(declared: seq<Entry>)
    ensures var c := ConstantView(declared);
            var ix := KeptIndices(declared, (f: Field) => f.kind == Constant);
            |c| == |ix| && forall i :: 0 <= i < |c| ==> c[i] == declared[ix[i]]
    ensures var d := DerivableView(declared);
            var ix := KeptIndices(declared, (f: Field) => f.kind == Derivable);
            |d| == |ix| && forall i :: 0 <= i < |d| ==> d[i] == declared[ix[i]]
  {
    FilterOrder(declared, (f: Field) => f.kind == Constant);
    FilterOrder(declared, (f: Field) => f.kind == Derivable);
  }
}
