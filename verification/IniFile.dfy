/** Ini contents (include/ini.h): the list of sections, the list of properties over all sections, and the
    operations that load, save and read them. */
module IniFile {
  import opened IniText

  const NOT_FOUND := -1

  datatype Property = Property(section: nat, name: string, value: string)

  /** Section 0 is the global one; a property names its section by index. */
  datatype Doc = Doc(sections: seq<string>, properties: seq<Property>)

  ghost predicate Consistent(d: Doc) {
    d.sections != [] && forall i :: 0 <= i < |d.properties| ==> d.properties[i].section < |d.sections|
  }

  /** The properties of a section in order, which is all that the accessors show. */
  function Of(properties: seq<Property>, s: nat): seq<Item> {
    if properties == [] then []
    else
      var last := properties[|properties| - 1];
      Of(properties[..|properties| - 1], s) + if last.section == s then [Assign(last.name, last.value)] else []
  }

  /** Contents that no accessor tells apart. */
  ghost predicate Same(d: Doc, e: Doc) {
    d.sections == e.sections && forall s: nat :: Of(d.properties, s) == Of(e.properties, s)
  }

  // --- Loading: building contents from items ---

  const EMPTY := Doc([""], [])

  function Add(d: Doc, x: Item): Doc
    requires d.sections != []
  {
    match x
    case Section(n) => d.(sections := d.sections + [n])
    case Assign(n, v) => d.(properties := d.properties + [Property(|d.sections| - 1, n, v)])
  }

  function Build(d: Doc, items: seq<Item>): (r: Doc)
    requires d.sections != []
    ensures r.sections != []
    decreases |items|
  {
    if items == [] then d else Build(Add(d, items[0]), items[1..])
  }

  function Load(text: string): Doc { Build(EMPTY, Items(text)) }

  // --- Saving: the items of contents ---

  /** The header of a section; the global section has none unless it was given a name. */
  function Head(d: Doc, s: nat): seq<Item>
    requires s < |d.sections|
  {
    if s == 0 && d.sections[0] == "" then [] else [Section(d.sections[s])]
  }

  /** The items of the first `k` sections. */
  function DocItems(d: Doc, k: nat): seq<Item>
    requires k <= |d.sections|
  {
    if k == 0 then [] else DocItems(d, k - 1) + Head(d, k - 1) + Of(d.properties, k - 1)
  }

  function Tokens(items: seq<Item>): seq<Token> {
    seq(|items|, i requires 0 <= i < |items| => Entry(items[i]))
  }

  /** The tokens of the first `k` sections: after each section an empty line, if anything was written. */
  function DocTokens(d: Doc, k: nat): seq<Token>
    requires k <= |d.sections|
  {
    if k == 0 then []
    else
      var t := DocTokens(d, k - 1) + Tokens(Head(d, k - 1)) + Tokens(Of(d.properties, k - 1));
      if TokenText(t) == "" then t else t + [Gap]
  }

  function Save(d: Doc): string { TokenText(DocTokens(d, |d.sections|)) }

  lemma {:induction false} TokensAreItems(items: seq<Item>)
    ensures TokenItems(Tokens(items)) == items
  {
    if items == [] {
    } else {
      TokensAreItems(items[1..]);
      assert Tokens(items)[1..] == Tokens(items[1..]);
      assert Tokens(items)[0] == Entry(items[0]);
      assert [items[0]] + items[1..] == items;
    }
  }

  lemma {:induction false} DocTokensAreItems(d: Doc, k: nat)
    requires k <= |d.sections|
    ensures TokenItems(DocTokens(d, k)) == DocItems(d, k)
  {
    hide Tokens, Head, Of, TokenItems, TokenText;
    if k > 0 {
      DocTokensAreItems(d, k - 1);
      SectionTokens(DocTokens(d, k - 1), Head(d, k - 1), Of(d.properties, k - 1));
    } else {
      NoTokens();
    }
  }

  lemma SectionTokens(a: seq<Token>, h: seq<Item>, p: seq<Item>)
    ensures var t := a + Tokens(h) + Tokens(p);
            TokenItems(t) == TokenItems(a) + h + p && TokenItems(t + [Gap]) == TokenItems(t)
  {
    hide Tokens, TokenItems;
    TokensAreItems(h);
    TokensAreItems(p);
    TokensJoin(a, Tokens(h));
    TokensJoin(a + Tokens(h), Tokens(p));
    TokensJoin(a + Tokens(h) + Tokens(p), [Gap]);
    GapSaysNothing();
  }

  lemma NoTokens()
    ensures TokenItems([]) == []
  {
  }

  lemma GapSaysNothing()
    ensures TokenItems([Gap]) == []
  {
    assert [Gap][1..] == [];
  }

  // --- The items determine the contents and the contents the items ---

  lemma OfSnoc(ps: seq<Property>, p: Property, s: nat)
    ensures Of(ps + [p], s) == Of(ps, s) + if p.section == s then [Assign(p.name, p.value)] else []
  {
    assert (ps + [p])[..|ps|] == ps;
  }

  lemma {:induction false} OfNone(ps: seq<Property>, s: nat)
    requires forall i :: 0 <= i < |ps| ==> ps[i].section < s
    ensures Of(ps, s) == []
  {
    if ps != [] {
      OfNone(ps[..|ps| - 1], s);
    }
  }

  lemma {:induction false} ItemsBelow(d: Doc, x: Item, k: nat)
    requires Consistent(d) && k <= |d.sections| && (x.Assign? ==> k < |d.sections|)
    ensures k <= |Add(d, x).sections| && DocItems(Add(d, x), k) == DocItems(d, k)
  {
    if k > 0 {
      ItemsBelow(d, x, k - 1);
      if x.Assign? {
        OfSnoc(d.properties, Property(|d.sections| - 1, x.name, x.value), k - 1);
      }
      hide Of;
    }
  }

  /** Adding an item appends it to the items. */
  lemma AddAppends(d: Doc, x: Item)
    requires Consistent(d)
    ensures Consistent(Add(d, x))
    ensures DocItems(Add(d, x), |Add(d, x).sections|) == DocItems(d, |d.sections|) + [x]
  {
    match x
    case Section(name) => AddSectionAppends(d, name);
    case Assign(name, value) => AddPropertyAppends(d, name, value);
  }

  lemma AddSectionAppends(d: Doc, name: string)
    requires Consistent(d)
    ensures var e := Add(d, Section(name));
            Consistent(e) && DocItems(e, |e.sections|) == DocItems(d, |d.sections|) + [Section(name)]
  {
    var n, e := |d.sections|, Add(d, Section(name));
    ItemsBelow(d, Section(name), n);
    OfNone(d.properties, n);
    assert Head(e, n) == [Section(name)] && Of(e.properties, n) == [];
    hide Of, Head;
    assert DocItems(e, n + 1) == DocItems(e, n) + [Section(name)] + [];
  }

  lemma AddPropertyAppends(d: Doc, name: string, value: string)
    requires Consistent(d)
    ensures var e := Add(d, Assign(name, value));
            Consistent(e) && DocItems(e, |e.sections|) == DocItems(d, |d.sections|) + [Assign(name, value)]
  {
    var n, x := |d.sections|, Assign(name, value);
    ItemsBelow(d, x, n - 1);
    OfSnoc(d.properties, Property(n - 1, name, value), n - 1);
    hide Of;
    var a, h, p := DocItems(d, n - 1), Head(d, n - 1), Of(d.properties, n - 1);
    assert a + h + (p + [x]) == (a + h + p) + [x];
  }

  lemma {:induction false} BuildAppends(d: Doc, items: seq<Item>)
    requires Consistent(d)
    ensures Consistent(Build(d, items))
    ensures DocItems(Build(d, items), |Build(d, items).sections|) == DocItems(d, |d.sections|) + items
    decreases |items|
  {
    assert d.sections != [];
    hide DocItems, Add, Consistent;
    if items == [] {
      assert DocItems(d, |d.sections|) + [] == DocItems(d, |d.sections|);
    } else {
      AddAppends(d, items[0]);
      BuildAppends(Add(d, items[0]), items[1..]);
      assert DocItems(d, |d.sections|) + [items[0]] + items[1..] == DocItems(d, |d.sections|) + items;
    }
  }

  /** What is built from items has exactly these items. */
  lemma BuiltItems(items: seq<Item>)
    ensures var r := Build(EMPTY, items);
            Consistent(r) && DocItems(r, |r.sections|) == items && r.sections[0] == ""
  {
    BuildAppends(EMPTY, items);
    FirstStays(EMPTY, items);
    assert DocItems(EMPTY, 1) == [];
    assert [] + items == items;
  }

  lemma {:induction false} FirstStays(d: Doc, items: seq<Item>)
    requires d.sections != []
    ensures Build(d, items).sections[0] == d.sections[0]
    decreases |items|
  {
    if items != [] {
      FirstStays(Add(d, items[0]), items[1..]);
    }
  }

  lemma {:induction false} SameItems(d: Doc, e: Doc, k: nat)
    requires Same(d, e) && k <= |d.sections|
    ensures DocItems(d, k) == DocItems(e, k)
  {
    if k > 0 {
      SameItems(d, e, k - 1);
    }
  }

  lemma {:induction false} BuildJoins(d: Doc, a: seq<Item>, b: seq<Item>)
    requires d.sections != []
    ensures Build(d, a + b) == Build(Build(d, a), b)
    decreases |a|
  {
    if a == [] {
      assert a + b == b;
    } else {
      assert (a + b)[1..] == a[1..] + b;
      BuildJoins(Add(d, a[0]), a[1..], b);
    }
  }

  /** Properties go to the last section and to no other. */
  lemma {:induction false} BuildProperties(d: Doc, items: seq<Item>, s: nat)
    requires d.sections != [] && forall i :: 0 <= i < |items| ==> items[i].Assign?
    ensures var r := Build(d, items);
            r.sections == d.sections
            && Of(r.properties, s) == Of(d.properties, s) + if s == |d.sections| - 1 then items else []
    decreases |items|
  {
    if items == [] {
      assert Of(d.properties, s) + [] == Of(d.properties, s);
    } else {
      var x := items[0];
      OfSnoc(d.properties, Property(|d.sections| - 1, x.name, x.value), s);
      BuildProperties(Add(d, x), items[1..], s);
      assert Of(d.properties, s) + [x] + items[1..] == Of(d.properties, s) + items;
      assert Of(d.properties, s) + [] == Of(d.properties, s);
      assert Of(d.properties, s) + [] + [] == Of(d.properties, s);
    }
  }

  lemma {:induction false} OfAssigns(ps: seq<Property>, s: nat)
    ensures forall i :: 0 <= i < |Of(ps, s)| ==> Of(ps, s)[i].Assign?
  {
    if ps != [] {
      OfAssigns(ps[..|ps| - 1], s);
    }
  }

  /** Building the items of the first `k` sections gives these sections with their properties. */
  lemma {:induction false} RebuiltBelow(d: Doc, k: nat, s: nat)
    requires d.sections != [] && d.sections[0] == "" && 1 <= k <= |d.sections|
    ensures var r := Build(EMPTY, DocItems(d, k));
            r.sections == d.sections[..k] && Of(r.properties, s) == if s < k then Of(d.properties, s) else []
    decreases k
  {
    if k == 1 {
      FirstRebuilt(d, s);
    } else {
      RebuiltBelow(d, k - 1, s);
      NextRebuilt(d, k, s);
    }
  }

  lemma FirstRebuilt(d: Doc, s: nat)
    requires d.sections != [] && d.sections[0] == ""
    ensures var r := Build(EMPTY, DocItems(d, 1));
            r.sections == d.sections[..1] && Of(r.properties, s) == if s < 1 then Of(d.properties, s) else []
  {
    var p := Of(d.properties, 0);
    assert DocItems(d, 1) == p;
    OfAssigns(d.properties, 0);
    BuildProperties(EMPTY, p, s);
    assert [] + p == p;
  }

  lemma NextRebuilt(d: Doc, k: nat, s: nat)
    requires d.sections != [] && 2 <= k <= |d.sections|
    requires var b := Build(EMPTY, DocItems(d, k - 1));
             b.sections == d.sections[..k - 1] && Of(b.properties, s) == if s < k - 1 then Of(d.properties, s) else []
    ensures var r := Build(EMPTY, DocItems(d, k));
            r.sections == d.sections[..k] && Of(r.properties, s) == if s < k then Of(d.properties, s) else []
  {
    hide Build, Of;
    var a, h, p := DocItems(d, k - 1), Head(d, k - 1), Of(d.properties, k - 1);
    BuildJoins(EMPTY, a + h, p);
    BuildJoins(EMPTY, a, h);
    var b := Build(EMPTY, a);
    HeadAdds(b, d.sections[k - 1]);
    assert b.sections + [d.sections[k - 1]] == d.sections[..k];
    OfAssigns(d.properties, k - 1);
    BuildProperties(b.(sections := d.sections[..k]), p, s);
    assert [] + p == p && Of(b.properties, s) + [] == Of(b.properties, s);
  }

  lemma HeadAdds(d: Doc, name: string)
    requires d.sections != []
    ensures Build(d, [Section(name)]) == d.(sections := d.sections + [name])
  {
    assert [Section(name)][1..] == [];
  }

  /** Contents are rebuilt from their items. */
  lemma Rebuilt(d: Doc)
    requires Consistent(d) && d.sections[0] == ""
    ensures Same(Build(EMPTY, DocItems(d, |d.sections|)), d)
  {
    var r := Build(EMPTY, DocItems(d, |d.sections|));
    RebuiltBelow(d, |d.sections|, 0);
    assert d.sections[..|d.sections|] == d.sections;
    forall s: nat ensures Of(r.properties, s) == Of(d.properties, s) {
      RebuiltBelow(d, |d.sections|, s);
      if s >= |d.sections| {
        OfNone(d.properties, s);
      }
    }
  }

  // --- The round trip ---

  /** Contents that can be written down: the global section has no name, every other section has one, and
      all names and values are good. */
  ghost predicate WellFormed(d: Doc) {
    && d.sections != [] && d.sections[0] == ""
    && (forall s :: 1 <= s < |d.sections| ==> GoodSection(d.sections[s]))
    && (forall i :: 0 <= i < |d.properties| ==> GoodName(d.properties[i].name) && GoodValue(d.properties[i].value))
  }

  /** Loading what was saved gives back the same sections, and in each the same properties in order, if and
      only if the contents are well formed. */
  lemma RoundTrip(d: Doc)
    requires Consistent(d)
    ensures Same(Load(Save(d)), d) <==> WellFormed(d)
  {
    hide Items, Build, DocItems, Same, Consistent, TokenItems, TokenText, DocTokens, WellFormed, AllGood;
    var n := |d.sections|;
    var items := Items(Save(d));
    DocTokensAreItems(d, n);
    TextSaysItsItems(DocTokens(d, n));
    BuiltItems(items);
    Shape(d);
    if Same(Load(Save(d)), d) {
      SameSections(Load(Save(d)), d);
      SameItems(Load(Save(d)), d, n);
    } else if d.sections[0] == "" {
      Rebuilt(d);
    }
  }

  lemma SameSections(d: Doc, e: Doc)
    requires Same(d, e)
    ensures d.sections == e.sections
  {
  }

  /** Contents are well formed exactly if the global section is unnamed and all items are good. */
  lemma Shape(d: Doc)
    requires Consistent(d)
    ensures WellFormed(d) <==> d.sections[0] == "" && AllGood(DocItems(d, |d.sections|))
    ensures d.sections != []
  {
    hide GoodName, GoodValue, GoodSection, AllGood;
    if d.sections[0] == "" {
      GoodBelow(d, |d.sections|);
    }
  }

  /** The names of the first `k` sections after the one without a name are good. */
  predicate SectionsGood(d: Doc, k: nat)
    requires k <= |d.sections|
  {
    forall s :: 1 <= s < k ==> GoodSection(d.sections[s])
  }

  /** The properties of the first `k` sections are good. */
  predicate PropertiesGood(d: Doc, k: nat) {
    forall i :: 0 <= i < |d.properties| && d.properties[i].section < k ==> PropertyGood(d.properties[i])
  }

  predicate PropertyGood(p: Property) { GoodName(p.name) && GoodValue(p.value) }

  lemma {:induction false} GoodBelow(d: Doc, k: nat)
    requires d.sections != [] && d.sections[0] == "" && k <= |d.sections|
    ensures AllGood(DocItems(d, k)) <==> SectionsGood(d, k) && PropertiesGood(d, k)
  {
    if k > 0 {
      GoodBelow(d, k - 1);
      GoodStep(d, k);
      var a, h, p := DocItems(d, k - 1), Head(d, k - 1), Of(d.properties, k - 1);
      hide SectionsGood, PropertiesGood, PropertyGood, GoodSection, AllGood, Of, Head;
      GoodJoins(a, h);
      GoodJoins(a + h, p);
      GoodOf(d.properties, k - 1);
      GoodHead(d, k - 1);
    }
  }

  lemma GoodStep(d: Doc, k: nat)
    requires 0 < k <= |d.sections|
    ensures SectionsGood(d, k) <==> SectionsGood(d, k - 1) && (k == 1 || GoodSection(d.sections[k - 1]))
    ensures PropertiesGood(d, k)
            <==> PropertiesGood(d, k - 1)
                 && forall i :: 0 <= i < |d.properties| && d.properties[i].section == k - 1 ==>
                      PropertyGood(d.properties[i])
  {
    hide GoodSection, PropertyGood;
  }

  lemma GoodHead(d: Doc, s: nat)
    requires s < |d.sections| && d.sections[0] == ""
    ensures AllGood(Head(d, s)) <==> s == 0 || GoodSection(d.sections[s])
  {
    hide GoodSection;
    if s > 0 {
      assert Head(d, s)[0] == Section(d.sections[s]);
    }
  }

  lemma GoodJoins(a: seq<Item>, b: seq<Item>)
    ensures AllGood(a + b) <==> AllGood(a) && AllGood(b)
  {
    hide Good;
    assert forall i :: 0 <= i < |a| ==> (a + b)[i] == a[i];
    assert forall i :: 0 <= i < |b| ==> (a + b)[|a| + i] == b[i];
  }

  lemma {:induction false} GoodOf(ps: seq<Property>, s: nat)
    ensures AllGood(Of(ps, s))
            <==> forall i :: 0 <= i < |ps| && ps[i].section == s ==> PropertyGood(ps[i])
  {
    hide GoodName, GoodValue;
    if ps != [] {
      var n := |ps| - 1;
      GoodOf(ps[..n], s);
      var last := ps[n];
      GoodJoins(Of(ps[..n], s), if last.section == s then [Assign(last.name, last.value)] else []);
      assert AllGood([Assign(last.name, last.value)]) <==> GoodName(last.name) && GoodValue(last.value) by {
        assert [Assign(last.name, last.value)][0] == Assign(last.name, last.value);
      }
    }
  }

  /** A property without a value is lost: what follows it in the text becomes its value. */
  lemma EmptyValueOverruns()
    ensures var d := Doc(["", "s"], [Property(0, "a", ""), Property(1, "b", "c")]);
            Consistent(d) && !Same(Load(Save(d)), d)
  {
    var d := Doc(["", "s"], [Property(0, "a", ""), Property(1, "b", "c")]);
    assert d.properties[0].value == "";
    assert !GoodValue("");
    RoundTrip(d);
  }
}
