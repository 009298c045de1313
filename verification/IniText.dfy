/** The text format of ini files (ini_load and ini_save, include/ini.h): what a text says, and exactly
    which contents survive being saved and loaded. Texts and names are C strings without their terminator. */
module IniText {
  /** What one place of a text adds: a section, or a property in the section added last. */
  datatype Item = Section(name: string) | Assign(name: string, value: string)

  /** Bytes from 128 up are negative where `char` is signed, and then count as blanks. */
  predicate Blank(c: char) { c <= ' ' || c >= '\U{80}' }

  // --- Scanning ---

  /** The text from its first character that is not blank. */
  function TrimFront(t: string): (r: string)
    ensures |r| <= |t| && (r != "" ==> !Blank(r[0]))
  {
    if t != "" && Blank(t[0]) then TrimFront(t[1..]) else t
  }

  /** The same, but not past the end of the line. */
  function TrimLine(t: string): (r: string)
    ensures |r| <= |t| && (r != "" ==> !Blank(r[0]) || r[0] == '\n')
  {
    if t != "" && Blank(t[0]) && t[0] != '\n' then TrimLine(t[1..]) else t
  }

  /** The length of the part before the first of two characters. */
  function Until(t: string, a: char, b: char): (n: nat)
    ensures n <= |t| && (n < |t| ==> t[n] == a || t[n] == b) && a !in t[..n] && b !in t[..n]
  {
    if t == "" || t[0] == a || t[0] == b then 0
    else
      var n := Until(t[1..], a, b);
      assert t[..n + 1] == [t[0]] + t[1..][..n];
      n + 1
  }

  /** A line without the blanks at its end. */
  function TrimEnd(t: string): (r: string)
    ensures r <= t && (r != "" ==> !Blank(r[|r| - 1]))
  {
    if t != "" && Blank(t[|t| - 1]) then TrimEnd(t[..|t| - 1]) else t
  }

  /** A name or value is copied up to its length; but a length of zero means up to the end of the text. */
  function Copied(length: nat, t: string): string
    requires length <= |t|
  {
    if length == 0 then t else t[..length]
  }

  lemma TrimmedLine(t: string)
    ensures var v := TrimLine(t); var l := TrimEnd(v[..Until(v, '\n', '\n')]);
            (l == "" <==> v == "" || v[0] == '\n')
  {
    var v := TrimLine(t);
    var line := v[..Until(v, '\n', '\n')];
    if line != "" {
      assert !Blank(line[0]);
      NotAllBlank(line);
    }
  }

  lemma {:induction false} NotAllBlank(t: string)
    requires t != "" && !Blank(t[0])
    ensures TrimEnd(t) != ""
  {
    if Blank(t[|t| - 1]) {
      NotAllBlank(t[..|t| - 1]);
    }
  }

  // --- What a text says ---

  /** One round of the loop of ini_load on a text that does not begin with a blank: what it adds, and the
      text that is left. */
  function Round(u: string): (r: (seq<Item>, string))
    requires u != "" && !Blank(u[0])
    ensures |r.1| < |u|
  {
    if u[0] == ';' then ([], u[Until(u, '\n', '\n')..])
    else if u[0] == '[' then SectionRound(u[1..])
    else PropertyRound(u)
  }

  function SectionRound(u: string): (r: (seq<Item>, string))
    ensures |r.1| <= |u|
  {
    var n := Until(u, ']', '\n');
    if n < |u| && u[n] == ']' then ([Section(Copied(n, u))], u[n + 1..]) else ([], u[n..])
  }

  function PropertyRound(u: string): (r: (seq<Item>, string))
    requires u != "" && !Blank(u[0])
    ensures |r.1| < |u|
  {
    var n := Until(u, '=', '\n');
    if n < |u| && u[n] == '=' then
      var (value, rest) := ValueRound(u[n + 1..]);
      ([Assign(Copied(n, u), value)], rest)
    else ([], u[n..])
  }

  /** The value that a text after an equals sign begins with, and the text that is left. */
  function ValueRound(t: string): (r: (string, string))
    ensures |r.1| <= |t|
  {
    var v := TrimLine(t);
    var l := TrimEnd(v[..Until(v, '\n', '\n')]);
    (Copied(|l|, v), if l == "" then t else v[|l|..])
  }

  /** The items of a text. */
  function Items(t: string): seq<Item>
    decreases |t|
  {
    var u := TrimFront(t);
    if u == "" then [] else Round(u).0 + Items(Round(u).1)
  }

  // --- What survives ---

  predicate GoodSection(n: string) { n != "" && ']' !in n && '\n' !in n }

  predicate GoodName(n: string) {
    n != "" && ' ' < n[0] < '\U{80}' && n[0] != ';' && n[0] != '[' && '=' !in n && '\n' !in n
  }

  /** It begins and ends with a printable character of ASCII and holds no line break. */
  predicate GoodValue(v: string) {
    v != "" && ' ' < v[0] < '\U{80}' && ' ' < v[|v| - 1] < '\U{80}' && '\n' !in v
  }

  predicate Good(x: Item) {
    match x
    case Section(n) => GoodSection(n)
    case Assign(n, v) => GoodName(n) && GoodValue(v)
  }

  /** An item as it is saved; a section without a name has no header. */
  function Emit(x: Item): string {
    match x
    case Section(n) => if n == "" then "" else "[" + n + "]\n"
    case Assign(n, v) => n + "=" + v + "\n"
  }

  lemma BlankLine(t: string)
    ensures Items("\n" + t) == Items(t)
  {
    assert ("\n" + t)[1..] == t;
  }

  lemma {:induction false} UntilIs(t: string, n: nat, a: char, b: char)
    requires n <= |t| && a !in t[..n] && b !in t[..n] && (n < |t| ==> t[n] == a || t[n] == b)
    ensures Until(t, a, b) == n
  {
    if n > 0 {
      assert t[0] in t[..n];
      assert t[1..][..n - 1] == t[1..n] && forall c :: c in t[1..n] ==> c in t[..n];
      UntilIs(t[1..], n - 1, a, b);
    }
  }

  /** A saved section header is read back. */
  lemma SectionReadBack(n: string, rest: string)
    requires GoodSection(n)
    ensures Items(Emit(Section(n)) + rest) == [Section(n)] + Items(rest)
  {
    var u := Emit(Section(n)) + rest;
    assert u[0] == '[' && TrimFront(u) == u;
    assert u[1..] == n + ("]\n" + rest);
    assert u[1..][..|n|] == n;
    UntilIs(u[1..], |n|, ']', '\n');
    assert u[1..][|n|..] == "]\n" + rest;
    assert ("]\n" + rest)[1..] == "\n" + rest;
    BlankLine(rest);
  }

  lemma NameRead(n: string, w: string)
    requires GoodName(n)
    ensures var u := n + ("=" + w);
            Until(u, '=', '\n') == |n| && u[|n|] == '=' && u[..|n|] == n && u[|n| + 1..] == w && u[0] == n[0]
  {
    var u := n + ("=" + w);
    assert u[..|n|] == n;
    UntilIs(u, |n|, '=', '\n');
  }

  lemma ValueRead(v: string, rest: string)
    requires GoodValue(v)
    ensures var w := v + ("\n" + rest);
            && TrimLine(w) == w && Until(w, '\n', '\n') == |v| && w[..|v|] == v && TrimEnd(v) == v
            && w[|v|..] == "\n" + rest
  {
    var w := v + ("\n" + rest);
    assert w[..|v|] == v && w[|v|..] == "\n" + rest;
    GoodIsTrimmed(v, "\n" + rest);
    hide TrimLine, TrimEnd, Until;
    UntilIs(w, |v|, '\n', '\n');
  }

  lemma GoodIsTrimmed(v: string, t: string)
    requires GoodValue(v)
    ensures TrimLine(v + t) == v + t && TrimEnd(v) == v
  {
    hide Until;
    assert (v + t)[0] == v[0];
  }

  lemma AssignRound(n: string, v: string, rest: string)
    requires GoodName(n) && GoodValue(v)
    ensures PropertyRound(Emit(Assign(n, v)) + rest) == ([Assign(n, v)], "\n" + rest)
  {
    hide Until, TrimLine, TrimEnd, Blank;
    var w := v + ("\n" + rest);
    assert Emit(Assign(n, v)) + rest == n + ("=" + w);
    NameRead(n, w);
    ValueRead(v, rest);
  }

  /** A saved property is read back. */
  lemma AssignReadBack(n: string, v: string, rest: string)
    requires GoodName(n) && GoodValue(v)
    ensures Items(Emit(Assign(n, v)) + rest) == [Assign(n, v)] + Items(rest)
  {
    hide PropertyRound, SectionRound;
    AssignRound(n, v, rest);
    var u := Emit(Assign(n, v)) + rest;
    assert u[0] == n[0] && TrimFront(u) == u;
    BlankLine(rest);
  }

  lemma ReadBack(x: Item, rest: string)
    requires Good(x)
    ensures Items(Emit(x) + rest) == [x] + Items(rest)
  {
    match x
    case Section(n) => SectionReadBack(n, rest);
    case Assign(n, v) => AssignReadBack(n, v, rest);
  }

  /** What the first item of any text can be: names and values are good, or begin as only an overrun does. */
  predicate Loaded(x: Item) {
    match x
    case Section(n) => GoodSection(n) || (n != "" && n[0] == ']')
    case Assign(n, v) => (GoodName(n) || (n != "" && n[0] == '=')) && (GoodValue(v) || v == "" || v[0] == '\n')
  }

  lemma {:induction false} FirstIsLoaded(t: string)
    ensures Items(t) != [] ==> Loaded(Items(t)[0])
    decreases |t|
  {
    hide Round, Loaded;
    var u := TrimFront(t);
    if u != "" {
      RoundIsLoaded(u);
      if Round(u).0 == [] {
        FirstIsLoaded(Round(u).1);
      }
    }
  }

  lemma RoundIsLoaded(u: string)
    requires u != "" && !Blank(u[0])
    ensures Round(u).0 != [] ==> Loaded(Round(u).0[0])
  {
    if u[0] != ';' && u[0] != '[' {
      var n := Until(u, '=', '\n');
      if n < |u| && u[n] == '=' {
        FirstAssign(u, n);
      }
    }
  }

  lemma FirstAssign(u: string, n: nat)
    requires u != "" && !Blank(u[0]) && u[0] != ';' && u[0] != '['
    requires n == Until(u, '=', '\n') < |u| && u[n] == '='
    ensures var v := TrimLine(u[n + 1..]); var l := TrimEnd(v[..Until(v, '\n', '\n')]);
            |l| <= |v| && Loaded(Assign(Copied(n, u), Copied(|l|, v)))
  {
    var v := TrimLine(u[n + 1..]);
    var line := v[..Until(v, '\n', '\n')];
    var l := TrimEnd(line);
    TrimmedLine(u[n + 1..]);
    assert l <= line <= v;
    if n > 0 {
      assert u[..n][0] == u[0];
    }
  }

  lemma BadSectionIsLost(n: string, rest: string)
    requires n != "" && n[0] == ']'
    ensures var items := Items(Emit(Section(n)) + rest); items != [] && items[0] != Section(n)
  {
    var t := Emit(Section(n)) + rest;
    assert t[0] == '[' && TrimFront(t) == t;
    assert t[1..] == n + ("]\n" + rest);
    assert Until(t[1..], ']', '\n') == 0;
  }

  lemma BadNameIsLost(n: string, v: string, rest: string)
    requires n != "" && n[0] == '='
    ensures var items := Items(Emit(Assign(n, v)) + rest); items != [] && items[0] != Assign(n, v)
  {
    var t := Emit(Assign(n, v)) + rest;
    assert t == n + ("=" + v + "\n" + rest);
    assert TrimFront(t) == t && Until(t, '=', '\n') == 0;
  }

  /** An item that is not good is never read back as itself: the first item of the text it is saved to is
      another one. */
  lemma BadIsLost(x: Item, rest: string)
    requires !Good(x)
    ensures var items := Items(Emit(x) + rest); items == [] || items[0] != x
  {
    hide Items, Emit, GoodName, GoodValue, GoodSection;
    FirstIsLoaded(Emit(x) + rest);
    if Loaded(x) {
      match x
      case Section(n) => BadSectionIsLost(n, rest);
      case Assign(n, v) =>
        if !GoodName(n) {
          BadNameIsLost(n, v, rest);
        } else {
          BadValueIsLost(n, v, rest);
        }
    }
  }

  lemma BadValueIsLost(n: string, v: string, rest: string)
    requires GoodName(n) && (v == "" || v[0] == '\n')
    ensures var items := Items(Emit(Assign(n, v)) + rest); items != [] && items[0] != Assign(n, v)
  {
    var u := Emit(Assign(n, v)) + rest;
    var w := v + ("\n" + rest);
    assert u == n + ("=" + w);
    assert u[..|n|] == n && u[0] == n[0] && TrimFront(u) == u;
    UntilIs(u, |n|, '=', '\n');
    assert u[|n| + 1..] == w && w[0] == '\n';
    assert TrimLine(w) == w && Until(w, '\n', '\n') == 0;
  }

  // --- Texts that ini_save does not write ---

  /** Control characters, spaces, and bytes from 128 up. */
  predicate AllBlank(b: string) { forall i :: 0 <= i < |b| ==> b[i] <= ' ' || b[i] >= '\U{80}' }

  lemma {:induction false} TrimFrontBlanks(b: string, t: string)
    requires AllBlank(b)
    ensures TrimFront(b + t) == TrimFront(t)
    decreases |b|
  {
    if b == "" {
      assert b + t == t;
    } else {
      assert (b + t)[1..] == b[1..] + t;
      TrimFrontBlanks(b[1..], t);
    }
  }

  /** Blanks and empty lines before anything say nothing. */
  lemma BlanksAreSkipped(b: string, t: string)
    requires AllBlank(b)
    ensures Items(b + t) == Items(t)
  {
    TrimFrontBlanks(b, t);
  }

  /** A round that adds nothing and stops at the end of its line. */
  lemma SilentLine(c: string, t: string)
    requires c != "" && !Blank(c[0]) && Round(c + "\n" + t) == ([], "\n" + t)
    ensures Items(c + "\n" + t) == Items(t)
  {
    var u := c + "\n" + t;
    assert u[0] == c[0] && TrimFront(u) == u;
    hide Round;
    BlankLine(t);
  }

  lemma LineEnds(c: string, t: string, a: char)
    requires a !in c && '\n' !in c
    ensures var u := c + "\n" + t;
            Until(u, a, '\n') == |c| && u[|c|] == '\n' && u[|c|..] == "\n" + t && u[..|c|] == c
  {
    var u := c + "\n" + t;
    assert u[..|c|] == c;
    UntilIs(u, |c|, a, '\n');
  }

  /** A comment says nothing: what follows its line is read as if it were not there. */
  lemma CommentIsSkipped(c: string, t: string)
    requires '\n' !in c
    ensures Items(";" + c + "\n" + t) == Items(t)
  {
    LineEnds(";" + c, t, '\n');
    SilentLine(";" + c, t);
  }

  /** So does a line without an equals sign. */
  lemma BareLineIsSkipped(c: string, t: string)
    requires c != "" && !Blank(c[0]) && c[0] != ';' && c[0] != '[' && '=' !in c && '\n' !in c
    ensures Items(c + "\n" + t) == Items(t)
  {
    LineEnds(c, t, '=');
    SilentLine(c, t);
  }

  /** And a section header that its line does not close. */
  lemma UnclosedHeaderIsSkipped(c: string, t: string)
    requires ']' !in c && '\n' !in c
    ensures Items("[" + c + "\n" + t) == Items(t)
  {
    var u := "[" + c + "\n" + t;
    assert u[1..] == c + "\n" + t;
    LineEnds(c, t, ']');
    assert u == ("[" + c) + "\n" + t;
    SilentLine("[" + c, t);
  }

  /** What follows a header on its line is read as if it stood on the next. */
  lemma HeaderIsRead(n: string, t: string)
    requires GoodSection(n)
    ensures Items("[" + n + "]" + t) == [Section(n)] + Items(t)
  {
    var u := "[" + n + "]" + t;
    assert u[0] == '[' && TrimFront(u) == u;
    assert u[1..] == n + ("]" + t);
    assert u[1..][..|n|] == n;
    UntilIs(u[1..], |n|, ']', '\n');
    assert u[1..][|n| + 1..] == t;
  }

  lemma {:induction false} TrimLineBlanks(b: string, t: string)
    requires AllBlank(b) && '\n' !in b
    ensures TrimLine(b + t) == TrimLine(t)
    decreases |b|
  {
    if b == "" {
      assert b + t == t;
    } else {
      assert (b + t)[1..] == b[1..] + t && b[0] in b;
      TrimLineBlanks(b[1..], t);
    }
  }

  lemma {:induction false} TrimEndBlanks(v: string, b: string)
    requires AllBlank(b)
    ensures TrimEnd(v + b) == TrimEnd(v)
    decreases |b|
  {
    if b == "" {
      assert v + b == v;
    } else {
      assert (v + b)[..|v + b| - 1] == v + b[..|b| - 1];
      TrimEndBlanks(v, b[..|b| - 1]);
    }
  }

  /** A value with blanks after it, up to the end of its line. */
  lemma PaddedLine(v: string, after: string, t: string)
    requires AllBlank(after) && '\n' !in after && GoodValue(v) && (t == "" || t[0] == '\n')
    ensures var w := v + after + t;
            TrimLine(w) == w && |v| <= |w| && w[..|v|] == v && w[|v|..] == after + t
    ensures var w := v + after + t; TrimEnd(w[..Until(w, '\n', '\n')]) == v
  {
    var w := v + after + t;
    assert w[..|v + after|] == v + after;
    UntilIs(w, |v + after|, '\n', '\n');
    hide Until, TrimLine;
    TrimEndBlanks(v, after);
  }

  /** Blanks around a value do not belong to it, whether a line follows or the text ends. */
  lemma PaddedValue(before: string, v: string, after: string, t: string)
    requires AllBlank(before) && AllBlank(after) && '\n' !in before && '\n' !in after && GoodValue(v)
    requires t == "" || t[0] == '\n'
    ensures ValueRound(before + v + after + t) == (v, after + t)
  {
    var w := v + after + t;
    assert before + v + after + t == before + w;
    TrimLineBlanks(before, w);
    hide TrimLine, TrimEnd, Until, Blank, AllBlank;
    PaddedLine(v, after, t);
  }

  /** A property is read with the value that the text after its equals sign begins with. */
  lemma PropertyRead(n: string, w: string)
    requires GoodName(n)
    ensures Items(n + ("=" + w)) == [Assign(n, ValueRound(w).0)] + Items(ValueRound(w).1)
  {
    var u := n + ("=" + w);
    NameRead(n, w);
    assert TrimFront(u) == u;
    hide ValueRound, Until;
    assert Round(u) == PropertyRound(u);
  }

  /** A property's value is read without the blanks around it, and reading goes on after its line. */
  lemma PaddingIsDropped(n: string, before: string, v: string, after: string, t: string)
    requires GoodName(n) && AllBlank(before) && AllBlank(after) && '\n' !in before && '\n' !in after && GoodValue(v)
    requires t == "" || t[0] == '\n'
    ensures Items(n + "=" + before + v + after + t) == [Assign(n, v)] + Items(t)
  {
    hide ValueRound, Items, AllBlank, GoodName, GoodValue;
    AfterEquals(n, before, v, after, t);
    PropertyRead(n, before + v + after + t);
    PaddedValue(before, v, after, t);
    BlanksAreSkipped(after, t);
  }

  lemma AfterEquals(n: string, before: string, v: string, after: string, t: string)
    ensures n + "=" + before + v + after + t == n + ("=" + (before + v + after + t))
  {
    assert "=" + before + v + after + t == "=" + (before + v + after + t);
  }

  /** A silent line at the end of the text. */
  lemma LastLineSilent(c: string)
    requires c != "" && !Blank(c[0]) && Round(c) == ([], "")
    ensures Items(c) == []
  {
    assert TrimFront(c) == c;
    hide Round;
    NothingSaid();
  }

  lemma LastCommentIsSkipped(c: string)
    requires '\n' !in c
    ensures Items(";" + c) == []
  {
    UntilIs(";" + c, |c| + 1, '\n', '\n');
    LastLineSilent(";" + c);
  }

  lemma LastBareLineIsSkipped(c: string)
    requires c != "" && !Blank(c[0]) && c[0] != ';' && c[0] != '[' && '=' !in c && '\n' !in c
    ensures Items(c) == []
  {
    UntilIs(c, |c|, '=', '\n');
    LastLineSilent(c);
  }

  // --- Whole texts ---

  /** A saved text is a run of items and of empty lines between the sections. */
  datatype Token = Gap | Entry(item: Item)

  function TokenItems(tokens: seq<Token>): seq<Item> {
    if tokens == [] then [] else Said(tokens[0]) + TokenItems(tokens[1..])
  }

  function Said(x: Token): seq<Item> { if x == Gap then [] else [x.item] }

  function Written(x: Token): string { if x == Gap then "\n" else Emit(x.item) }

  function TokenText(tokens: seq<Token>): string {
    if tokens == [] then "" else Written(tokens[0]) + TokenText(tokens[1..])
  }

  ghost predicate AllGood(items: seq<Item>) {
    forall i :: 0 <= i < |items| ==> Good(items[i])
  }

  /** A text says exactly the items it was written from if and only if all of them are good. */
  lemma {:induction false} TextSaysItsItems(tokens: seq<Token>)
    ensures Items(TokenText(tokens)) == TokenItems(tokens) <==> AllGood(TokenItems(tokens))
  {
    hide Items, Good, Emit;
    if tokens == [] {
      NothingSaid();
    } else {
      var rest := TokenText(tokens[1..]);
      TextSaysItsItems(tokens[1..]);
      if tokens[0] == Gap {
        assert [] + TokenItems(tokens[1..]) == TokenItems(tokens[1..]);
        BlankLine(rest);
      } else {
        var x, items := tokens[0].item, TokenItems(tokens[1..]);
        if Good(x) {
          ReadBack(x, rest);
          SameTail(x, Items(rest), items);
        } else {
          BadIsLost(x, rest);
          assert ([x] + items)[0] == x;
        }
      }
    }
  }

  lemma NothingSaid()
    ensures Items("") == []
  {
  }

  lemma SameTail(x: Item, a: seq<Item>, b: seq<Item>)
    ensures [x] + a == [x] + b <==> a == b
    ensures Good(x) ==> (AllGood([x] + b) <==> AllGood(b))
  {
    hide Good;
    assert ([x] + a)[1..] == a && ([x] + b)[1..] == b;
    assert forall i :: 0 <= i < |b| ==> ([x] + b)[i + 1] == b[i];
  }

  lemma {:induction false} TokensJoin(a: seq<Token>, b: seq<Token>)
    ensures TokenItems(a + b) == TokenItems(a) + TokenItems(b)
  {
    hide Said;
    if a == [] {
      assert a + b == b;
    } else {
      TokensJoin(a[1..], b);
      assert (a + b)[1..] == a[1..] + b && (a + b)[0] == a[0];
    }
  }

  lemma {:induction false} TextsJoin(a: seq<Token>, b: seq<Token>)
    ensures TokenText(a + b) == TokenText(a) + TokenText(b)
  {
    hide Written;
    if a == [] {
      assert a + b == b;
    } else {
      TextsJoin(a[1..], b);
      assert (a + b)[1..] == a[1..] + b && (a + b)[0] == a[0];
    }
  }
}
