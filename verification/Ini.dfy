/** The ini object (include/ini.h), its lists growing in place, with the source's scanning loops. */
module Ini {
  import opened IniText
  import opened IniFile

  // --- Scanning a text by position; the rest of the text is what the specification speaks of ---

  method SkipBlanks(data: string, start: nat) returns (p: nat)
    requires start <= |data|
    ensures start <= p <= |data| && data[p..] == TrimFront(data[start..])
  {
    p := start;
    while p < |data| && Blank(data[p])
      invariant start <= p <= |data| && TrimFront(data[p..]) == TrimFront(data[start..])
    {
      assert data[p..][1..] == data[p + 1..];
      p := p + 1;
    }
  }

  method SkipBlanksInLine(data: string, start: nat) returns (p: nat)
    requires start <= |data|
    ensures start <= p <= |data| && data[p..] == TrimLine(data[start..])
    ensures forall i :: start <= i < p ==> Blank(data[i])
  {
    p := start;
    while p < |data| && Blank(data[p]) && data[p] != '\n'
      invariant start <= p <= |data| && TrimLine(data[p..]) == TrimLine(data[start..])
      invariant forall i :: start <= i < p ==> Blank(data[i])
    {
      assert data[p..][1..] == data[p + 1..];
      p := p + 1;
    }
  }

  method ScanFor(data: string, start: nat, a: char, b: char) returns (p: nat)
    requires start <= |data|
    ensures start <= p <= |data| && p - start == Until(data[start..], a, b)
  {
    p := start;
    while p < |data| && data[p] != a && data[p] != b
      invariant start <= p <= |data| && p - start + Until(data[p..], a, b) == Until(data[start..], a, b)
    {
      assert data[p..][1..] == data[p + 1..];
      p := p + 1;
    }
  }

  /** Steps back from the end of a line to the end of its text, at worst to the equals sign. */
  method ScanBack(data: string, equals: nat, start: nat, end: nat) returns (p: nat)
    requires equals < start <= end <= |data| && data[equals] == '='
    requires forall i :: equals < i < start ==> Blank(data[i])
    ensures p <= |data|
    ensures var l := TrimEnd(data[start..end]); p == if l == "" then equals + 1 else start + |l|
  {
    p := end;
    while Blank(data[p - 1])
      invariant equals < p <= end
      invariant TrimEnd(data[start..if p < start then start else p]) == TrimEnd(data[start..end])
      decreases p
    {
      if p > start {
        assert data[start..p][..p - start - 1] == data[start..p - 1];
      }
      p := p - 1;
    }
    if p > start {
      assert data[start..p][p - start - 1] == data[p - 1];
    }
  }

  /** A round on a property, by positions. */
  lemma PropertyAtPosition(data: string, start: nat, equals: nat)
    requires start < |data| && !Blank(data[start]) && start <= equals <= |data|
    requires equals - start == Until(data[start..], '=', '\n')
    ensures PropertyRound(data[start..])
            == if equals < |data| && data[equals] == '=' then
                 ([Assign(Copied(equals - start, data[start..]), ValueRound(data[equals + 1..]).0)],
                  ValueRound(data[equals + 1..]).1)
               else ([], data[equals..])
  {
    hide Until, ValueRound;
    var u, n := data[start..], equals - start;
    assert u[n..] == data[equals..];
    if n < |u| {
      assert u[n + 1..] == data[equals + 1..];
    }
  }

  lemma ValueAtPosition(data: string, equals: nat, start: nat, end: nat, p: nat)
    requires equals < start <= end <= |data| && p <= |data|
    requires data[start..] == TrimLine(data[equals + 1..]) && end - start == Until(data[start..], '\n', '\n')
    requires var l := TrimEnd(data[start..end]); p == if l == "" then equals + 1 else start + |l|
    ensures (if p <= start then data[start..] else data[start..][..p - start], data[p..])
            == ValueRound(data[equals + 1..])
  {
    hide Until, TrimLine, TrimEnd;
    var v := data[start..];
    assert v[..end - start] == data[start..end];
    var l := TrimEnd(data[start..end]);
    if l != "" {
      assert v[|l|..] == data[p..];
    }
  }

  class Contents {
    var sections: seq<string>
    var properties: seq<Property>

    ghost function View(): Doc
      reads this
    {
      Doc(sections, properties)
    }

    ghost predicate Valid()
      reads this
    {
      Consistent(View())
    }

    constructor ()
      ensures Valid() && View() == EMPTY
    {
      sections := [""];
      properties := [];
    }

    /** ini_section_add; a length that is not positive means the whole of the given text. */
    method SectionAdd(name: string, length: int) returns (index: nat)
      requires Valid() && length <= |name|
      modifies this
      ensures Valid() && View() == Add(old(View()), Section(if length <= 0 then name else name[..length]))
      ensures index == |sections| - 1
    {
      index := |sections|;
      sections := sections + [if length <= 0 then name else name[..length]];
    }

    /** ini_property_add; nothing happens for a section that does not exist. */
    method PropertyAdd(section: int, name: string, nameLength: int, value: string, valueLength: int)
      requires Valid() && nameLength <= |name| && valueLength <= |value|
      modifies this
      ensures Valid() && sections == old(sections)
      ensures properties == old(properties)
                            + if 0 <= section < |sections|
                              then [Property(section, if nameLength <= 0 then name else name[..nameLength],
                                             if valueLength <= 0 then value else value[..valueLength])]
                              else []
    {
      if 0 <= section < |sections| {
        properties := properties + [Property(section, if nameLength <= 0 then name else name[..nameLength],
                                             if valueLength <= 0 then value else value[..valueLength])];
      }
    }

    /** ini_internal_property_index: the index of the `k`-th property of a section. */
    method PropertyIndex(section: int, k: int) returns (index: int)
      ensures var found := 0 <= section < |sections| && 0 <= k < |Of(properties, section)|;
              if found then 0 <= index < |properties| && properties[index].section == section
                            && |Of(properties[..index], section)| == k
              else index == NOT_FOUND
    {
      if 0 <= section < |sections| {
        var p := 0;
        for i := 0 to |properties|
          invariant p == |Of(properties[..i], section)| && (k < 0 || p <= k)
        {
          OfSnoc(properties[..i], properties[i], section);
          assert properties[..i + 1] == properties[..i] + [properties[i]];
          if properties[i].section == section {
            if p == k {
              OfPrefix(properties, section, i + 1);
              return i;
            }
            p := p + 1;
          }
        }
        assert properties[..|properties|] == properties;
      }
      index := NOT_FOUND;
    }

    /** ini_property_name and ini_property_value, for a property that exists. */
    method PropertyAt(section: int, k: int) returns (found: bool, name: string, value: string)
      ensures found <==> 0 <= section < |sections| && 0 <= k < |Of(properties, section)|
      ensures found ==> Of(properties, section)[k] == Assign(name, value)
    {
      found, name, value := false, "", "";
      var p := PropertyIndex(section, k);
      if p != NOT_FOUND {
        found, name, value := true, properties[p].name, properties[p].value;
        OfSnoc(properties[..p], properties[p], section);
        assert properties[..p + 1] == properties[..p] + [properties[p]];
        OfPrefix(properties, section, p + 1);
      }
    }

    /** A section header, from the character after the bracket. */
    method LoadSection(data: string, start: nat) returns (p: nat)
      requires Valid() && start <= |data|
      modifies this
      ensures Valid() && start <= p <= |data| && data[p..] == SectionRound(data[start..]).1
      ensures View() == Build(old(View()), SectionRound(data[start..]).0)
    {
      BuildNone(View());
      p := ScanFor(data, start, ']', '\n');
      assert data[start..][p - start..] == data[p..];
      if p < |data| && data[p] == ']' {
        assert data[start..][p - start + 1..] == data[p + 1..];
        BuildOne(View(), Section(Copied(p - start, data[start..])));
        var index := SectionAdd(data[start..], p - start);
        p := p + 1;
      }
    }

    /** The value after an equals sign, and where the loop goes on. */
    static method ScanValue(data: string, equals: nat) returns (start: nat, p: nat)
      requires equals < |data| && data[equals] == '='
      ensures equals < start <= |data| && equals < p <= |data|
      ensures (if p <= start then data[start..] else data[start..][..p - start], data[p..])
              == ValueRound(data[equals + 1..])
    {
      hide Until, TrimLine, TrimEnd, Blank;
      start := SkipBlanksInLine(data, equals + 1);
      var end := ScanFor(data, start, '\n', '\n');
      p := ScanBack(data, equals, start, end);
      ValueAtPosition(data, equals, start, end, p);
    }

    /** A property. */
    method LoadProperty(data: string, start: nat) returns (p: nat)
      requires Valid() && start < |data| && !Blank(data[start])
      modifies this
      ensures Valid() && start < p <= |data| && data[p..] == PropertyRound(data[start..]).1
      ensures View() == Build(old(View()), PropertyRound(data[start..]).0)
    {
      hide Until, ValueRound, PropertyRound, Build;
      BuildNone(View());
      var equals := ScanFor(data, start, '=', '\n');
      p := equals;
      PropertyAtPosition(data, start, equals);
      if equals < |data| && data[equals] == '=' {
        var value;
        value, p := ScanValue(data, equals);
        ghost var x := Assign(Copied(equals - start, data[start..]),
                              if p <= value then data[value..] else data[value..][..p - value]);
        BuildOne(View(), x);
        PropertyAdd(|sections| - 1, data[start..], equals - start, data[value..], p - value);
      }
    }

    /** One round of the loop. */
    method LoadRound(data: string, start: nat) returns (p: nat)
      requires Valid() && start < |data| && !Blank(data[start])
      modifies this
      ensures Valid() && start < p <= |data| && data[p..] == Round(data[start..]).1
      ensures View() == Build(old(View()), Round(data[start..]).0)
    {
      hide SectionRound, PropertyRound, Build;
      ghost var u := data[start..];
      BuildNone(View());
      if data[start] == ';' {
        p := ScanFor(data, start, '\n', '\n');
        assert u[p - start..] == data[p..];
      } else if data[start] == '[' {
        assert u[1..] == data[start + 1..];
        p := LoadSection(data, start + 1);
      } else {
        p := LoadProperty(data, start);
      }
    }

    /** ini_load, into contents just created. */
    method Load(data: string)
      requires Valid() && View() == EMPTY
      modifies this
      ensures Valid() && View() == IniFile.Load(data)
    {
      hide Round, Build;
      var p := 0;
      assert data[0..] == data;
      while p < |data|
        invariant Valid() && p <= |data| && Build(View(), Items(data[p..])) == IniFile.Load(data)
      {
        ghost var d, t := View(), data[p..];
        p := SkipBlanks(data, p);
        if p == |data| {
          break;
        }
        ghost var u := data[p..];
        p := LoadRound(data, p);
        BuildJoins(d, Round(u).0, Items(data[p..]));
      }
      BuildNone(View());
    }

    // --- Saving ---

    /** The buffer holds the text so far, as much of it as fits into `size`, and else what it held before. */
    ghost predicate Wrote(data: array?<char>, before: seq<char>, size: int, text: string)
      reads data
    {
      data != null ==>
        && data.Length == |before|
        && forall k :: 0 <= k < |before| ==> data[k] == if k < |text| && k < size then text[k] else before[k]
    }

    /** Writes a character if there is a buffer and room. */
    method Put(data: array?<char>, size: int, pos: nat, c: char, ghost before: seq<char>, ghost text: string)
      requires data != null ==> size <= data.Length
      requires pos == |text| && Wrote(data, before, size, text)
      modifies data
      ensures Wrote(data, before, size, text + [c])
    {
      if data != null && pos < size {
        data[pos] := c;
      }
    }

    method PutAll(data: array?<char>, size: int, pos: nat, s: string, ghost before: seq<char>, ghost text: string)
      returns (next: nat)
      requires data != null ==> size <= data.Length
      requires pos == |text| && Wrote(data, before, size, text)
      modifies data
      ensures Wrote(data, before, size, text + s) && next == |text + s|
    {
      next := pos;
      assert text + s[..0] == text;
      for i := 0 to |s|
        invariant next == pos + i && Wrote(data, before, size, text + s[..i])
      {
        Put(data, size, next, s[i], before, text + s[..i]);
        assert text + s[..i] + [s[i]] == text + s[..i + 1];
        next := next + 1;
      }
      assert s[..|s|] == s;
    }

    /** The header of a section that has a name. */
    method SaveHead(data: array?<char>, size: int, pos: nat, s: nat, ghost before: seq<char>, ghost text: string)
      returns (next: nat)
      requires s < |sections| && (data != null ==> size <= data.Length)
      requires pos == |text| && Wrote(data, before, size, text)
      modifies data
      ensures var whole := text + TokenText(Tokens(Head(View(), s)));
              Wrote(data, before, size, whole) && next == |whole|
    {
      HeadText(View(), s);
      hide Wrote, Head, Tokens, TokenText;
      var n := sections[s];
      next := pos;
      if |n| > 0 {
        Put(data, size, next, '[', before, text);
        next := PutAll(data, size, next + 1, n, before, text + "[");
        Put(data, size, next, ']', before, text + "[" + n);
        Put(data, size, next + 1, '\n', before, text + "[" + n + "]");
        next := next + 2;
        assert text + "[" + n + "]" + "\n" == text + ("[" + n + "]\n");
      } else {
        assert text + "" == text;
      }
    }

    /** The line of a property. */
    method SaveLine(data: array?<char>, size: int, pos: nat, p: Property, ghost before: seq<char>, ghost text: string)
      returns (next: nat)
      requires data != null ==> size <= data.Length
      requires pos == |text| && Wrote(data, before, size, text)
      modifies data
      ensures var whole := text + (p.name + "=" + p.value + "\n");
              Wrote(data, before, size, whole) && next == |whole|
    {
      hide Wrote;
      next := PutAll(data, size, pos, p.name, before, text);
      Put(data, size, next, '=', before, text + p.name);
      next := PutAll(data, size, next + 1, p.value, before, text + p.name + "=");
      Put(data, size, next, '\n', before, text + p.name + "=" + p.value);
      next := next + 1;
      assert text + p.name + "=" + p.value + "\n" == text + (p.name + "=" + p.value + "\n");
    }

    /** The lines of a section's properties. */
    method SaveLines(data: array?<char>, size: int, pos: nat, s: nat, ghost before: seq<char>, ghost text: string)
      returns (next: nat)
      requires data != null ==> size <= data.Length
      requires pos == |text| && Wrote(data, before, size, text)
      modifies data
      ensures var whole := text + TokenText(Tokens(Of(properties, s)));
              Wrote(data, before, size, whole) && next == |whole|
    {
      hide Wrote, Tokens, TokenText;
      next := pos;
      NoText(text, s);
      assert properties[..0] == [];
      for i := 0 to |properties|
        invariant Wrote(data, before, size, text + TokenText(Tokens(Of(properties[..i], s))))
        invariant next == |text + TokenText(Tokens(Of(properties[..i], s)))|
      {
        ghost var sofar := text + TokenText(Tokens(Of(properties[..i], s)));
        OfText(properties, i, s);
        if properties[i].section == s {
          next := SaveLine(data, size, next, properties[i], before, sofar);
        }
        hide Of;
        assert text + TokenText(Tokens(Of(properties[..i + 1], s)))
               == sofar + if properties[i].section == s
                          then properties[i].name + "=" + properties[i].value + "\n" else "";
        assert sofar + "" == sofar;
      }
      assert properties[..|properties|] == properties;
    }

    /** ini_save: the buffer receives the text and a zero as far as they fit and is otherwise unchanged; the
        result is their full length whatever the size, also without a buffer. */
    method Save(data: array?<char>, size: int) returns (pos: nat)
      requires Valid() && (data != null ==> size <= data.Length)
      modifies data
      ensures Wrote(data, if data == null then [] else old(data[..]), size, IniFile.Save(View()) + "\0")
      ensures pos == |IniFile.Save(View())| + 1
    {
      hide Wrote, Tokens, TokenText, Head, Of;
      ghost var before := if data == null then [] else data[..];
      pos := 0;
      NothingWritten(data, size);
      for s := 0 to |sections|
        invariant Wrote(data, before, size, TokenText(DocTokens(View(), s))) && pos == |TokenText(DocTokens(View(), s))|
      {
        ghost var text := TokenText(DocTokens(View(), s));
        pos := SaveHead(data, size, pos, s, before, text);
        pos := SaveLines(data, size, pos, s, before, text + TokenText(Tokens(Head(View(), s))));
        SectionText(View(), s);
        if pos > 0 {
          Put(data, size, pos, '\n', before,
              text + TokenText(Tokens(Head(View(), s))) + TokenText(Tokens(Of(properties, s))));
          pos := pos + 1;
        }
      }
      Put(data, size, pos, '\0', before, IniFile.Save(View()));
      pos := pos + 1;
    }

    lemma NothingWritten(data: array?<char>, size: int)
      ensures Wrote(data, if data == null then [] else data[..], size, TokenText(DocTokens(View(), 0)))
      ensures TokenText(DocTokens(View(), 0)) == ""
    {
    }
  }

  lemma NoText(text: string, s: nat)
    ensures text + TokenText(Tokens(Of([], s))) == text
  {
    assert text + "" == text;
  }

  /** The text of a section's header. */
  lemma HeadText(d: Doc, s: nat)
    requires s < |d.sections|
    ensures TokenText(Tokens(Head(d, s))) == if d.sections[s] == "" then "" else "[" + d.sections[s] + "]\n"
  {
    if Head(d, s) != [] {
      assert Tokens(Head(d, s))[1..] == [];
    }
  }

  /** One more property, in the text of a section if it belongs to it. */
  lemma OfText(ps: seq<Property>, i: nat, s: nat)
    requires i < |ps|
    ensures TokenText(Tokens(Of(ps[..i + 1], s)))
            == TokenText(Tokens(Of(ps[..i], s)))
               + if ps[i].section == s then ps[i].name + "=" + ps[i].value + "\n" else ""
  {
    assert ps[..i + 1] == ps[..i] + [ps[i]];
    OfSnoc(ps[..i], ps[i], s);
    var before := Of(ps[..i], s);
    if ps[i].section == s {
      var x := Assign(ps[i].name, ps[i].value);
      assert Tokens(before + [x]) == Tokens(before) + [Entry(x)];
      TextsJoin(Tokens(before), [Entry(x)]);
      OneText(x);
    } else {
      assert before + [] == before;
    }
  }

  lemma OneText(x: Item)
    ensures TokenText([Entry(x)]) == Emit(x)
  {
    hide Emit;
    assert [Entry(x)][1..] == [];
  }

  /** A section's text, from the texts of its parts. */
  lemma SectionText(d: Doc, s: nat)
    requires s < |d.sections|
    ensures var t := TokenText(DocTokens(d, s)) + TokenText(Tokens(Head(d, s)))
            + TokenText(Tokens(Of(d.properties, s)));
            TokenText(DocTokens(d, s + 1)) == if t == "" then t else t + "\n"
  {
    hide Tokens, Head, Of;
    var a, h, p := DocTokens(d, s), Tokens(Head(d, s)), Tokens(Of(d.properties, s));
    TextsJoin(a, h);
    TextsJoin(a + h, p);
    TextsJoin(a + h + p, [Gap]);
    assert [Gap][1..] == [];
    assert TokenText([Gap]) == "\n";
  }

  lemma BuildNone(d: Doc)
    requires d.sections != []
    ensures Build(d, []) == d
  {
  }

  lemma BuildOne(d: Doc, x: Item)
    requires d.sections != []
    ensures Build(d, [x]) == Add(d, x)
  {
    assert [x][1..] == [];
  }

  lemma {:induction false} OfPrefix(ps: seq<Property>, s: nat, n: nat)
    requires n <= |ps|
    ensures Of(ps[..n], s) <= Of(ps, s)
    decreases |ps|
  {
    if n == |ps| {
      assert ps[..n] == ps;
    } else {
      var m := |ps| - 1;
      OfPrefix(ps[..m], s, n);
      assert ps[..m][..n] == ps[..n];
    }
  }
}
