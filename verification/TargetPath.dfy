/** Normalisation of guest file names (target_realpath, src/uwin/file.cpp:69-171) and its two users. */
module TargetPath {
  datatype Option<T> = None | Some(value: T)

  /** The guest directory the program is installed in. */
  const PROGRAM := "C:\\HOMM3"

  /** The character at an index of a C string, zero past its end. */
  function At(s: string, k: nat): char { if k < |s| then s[k] else '\0' }

  function Slash(c: char): char { if c == '\\' then '/' else c }

  /** All backslashes turned into slashes. */
  function Forward(s: string): (r: string)
    ensures |r| == |s| && forall i :: 0 <= i < |s| ==> r[i] == Slash(s[i])
  {
    if s == "" then "" else [Slash(s[0])] + Forward(s[1..])
  }

  // --- The meaning of a path ---

  /** The components between slashes, empty ones included. */
  function Split(s: string): (r: seq<string>)
    ensures |r| > 0
  {
    if s == "" then [""] else Onto(s[0], Split(s[1..]))
  }

  /** A character before split text: a slash opens a component, any other joins the first. */
  function Onto(c: char, rest: seq<string>): (r: seq<string>)
    requires |rest| > 0
    ensures |r| > 0
  {
    if c == '/' then [""] + rest else [[c] + rest[0]] + rest[1..]
  }

  /** One component applied to the directories entered so far. */
  function Enter(stack: seq<string>, c: string): seq<string> {
    if c == "" || c == "." then stack
    else if c == ".." then (if stack == [] then [] else stack[..|stack| - 1])
    else stack + [c]
  }

  function Resolve(stack: seq<string>, components: seq<string>): seq<string>
    decreases |components|
  {
    if components == [] then stack else Resolve(Enter(stack, components[0]), components[1..])
  }

  /** The directories, a slash after each. */
  function Show(stack: seq<string>): string {
    if stack == [] then "" else stack[0] + "/" + Show(stack[1..])
  }

  /** The normalised name: without the last slash, which for the root is the drive's. */
  function Name(stack: seq<string>): string {
    if stack == [] then "C:" else ("C:/" + Show(stack))[..|"C:/" + Show(stack)| - 1]
  }

  predicate Absolute(name: string) { At(name, 1) == ':' && At(name, 2) == '/' }

  /** The name made absolute. */
  function Whole(current: string, name: string): string {
    if Absolute(Forward(name)) then Forward(name)
    else if At(name, 0) in {'/', '\\'} then Forward(current + Forward(name))
    else Forward(current + "/" + Forward(name))
  }

  /** A directory the source may hold as the current one: the drive alone or followed by a slash of either
      kind. */
  predicate Directory(s: string) {
    |s| >= 2 && s[0] in {'C', 'c'} && s[1] == ':' && (|s| == 2 || s[2] in {'/', '\\'})
  }

  /** target_realpath; None where its assertion on the drive letter fails. */
  function Real(current: string, name: string): Option<string>
    requires Directory(current)
  {
    var whole := Whole(current, name);
    if whole[0] in {'C', 'c'} then Some(Name(Resolve([], Split(whole[3..])))) else None
  }

  lemma WholeIsLong(current: string, name: string)
    requires Directory(current)
    ensures |Whole(current, name)| >= 3 && forall c :: c in Whole(current, name) ==> c != '\\'
  {
  }

  // --- Splitting ---

  predicate Plain(c: string) { '/' !in c }

  /** A component that is entered: not empty, not a dot or two, without slashes of either kind. */
  predicate Proper(c: string) { c != "" && c != "." && c != ".." && '/' !in c && '\\' !in c }

  ghost predicate AllProper(stack: seq<string>) {
    forall i :: 0 <= i < |stack| ==> Proper(stack[i])
  }

  lemma {:induction false} SplitAt(c: string, rest: string)
    requires Plain(c)
    ensures Split(c) == [c]
    ensures Split(c + "/" + rest) == [c] + Split(rest)
  {
    if c == "" {
      assert c + "/" + rest == "/" + rest;
      assert ("/" + rest)[1..] == rest;
    } else {
      SplitAt(c[1..], rest);
      assert (c + "/" + rest)[1..] == c[1..] + "/" + rest;
      assert [c[0]] + c[1..] == c;
    }
  }

  lemma {:induction false} SplitJoins(a: string, b: string)
    ensures Split(a + "/" + b) == Split(a) + Split(b)
  {
    if a == "" {
      SplitAt("", b);
      assert "" + "/" + b == a + "/" + b;
    } else {
      hide Onto;
      SplitJoins(a[1..], b);
      assert (a + "/" + b)[1..] == a[1..] + "/" + b && (a + "/" + b)[0] == a[0];
      OntoJoins(a[0], Split(a[1..]), Split(b));
    }
  }

  lemma OntoJoins(c: char, r: seq<string>, t: seq<string>)
    requires |r| > 0
    ensures Onto(c, r + t) == Onto(c, r) + t
  {
    assert (r + t)[0] == r[0] && (r + t)[1..] == r[1..] + t;
  }

  // --- The single components ---

  /** A dot and an empty component are passed over, anywhere in a path. */
  lemma NothingEntered(stack: seq<string>, a: seq<string>, b: seq<string>)
    ensures Resolve(stack, a + ["."] + b) == Resolve(stack, a + b) == Resolve(stack, a + [""] + b)
  {
    ResolveJoins(stack, a, b);
    ResolveJoins(stack, a, ["."] + b);
    ResolveJoins(stack, a, [""] + b);
    assert a + ["."] + b == a + (["."] + b) && a + [""] + b == a + ([""] + b);
    assert (["."] + b)[1..] == b && ([""] + b)[1..] == b;
  }

  /** A proper one is entered. */
  lemma ProperEntered(stack: seq<string>, a: seq<string>, c: string)
    requires Proper(c)
    ensures Resolve(stack, a + [c]) == Resolve(stack, a) + [c]
  {
    ResolveJoins(stack, a, [c]);
    assert [c][1..] == [];
  }

  /** Two dots leave the directory entered last, and at the root nothing. */
  lemma UpLeavesLast(stack: seq<string>, a: seq<string>)
    ensures var r := Resolve(stack, a); Resolve(stack, a + [".."]) == if r == [] then [] else r[..|r| - 1]
  {
    ResolveJoins(stack, a, [".."]);
    assert [".."][1..] == [];
  }

  /** No component contains a slash, nor any character the text does not have. */
  lemma {:induction false} SplitPlain(s: string)
    ensures forall i :: 0 <= i < |Split(s)| ==> Plain(Split(s)[i]) && forall c :: c in Split(s)[i] ==> c in s
  {
    if s != "" {
      SplitPlain(s[1..]);
      assert forall c :: c in s[1..] ==> c in s;
    }
  }

  // --- Resolving ---

  lemma {:induction false} ResolveJoins(stack: seq<string>, a: seq<string>, b: seq<string>)
    ensures Resolve(stack, a + b) == Resolve(Resolve(stack, a), b)
    decreases |a|
  {
    if a == [] {
      assert a + b == b;
    } else {
      assert (a + b)[1..] == a[1..] + b;
      ResolveJoins(Enter(stack, a[0]), a[1..], b);
    }
  }

  lemma {:induction false} ResolveIsProper(stack: seq<string>, components: seq<string>)
    requires AllProper(stack)
    requires forall i :: 0 <= i < |components| ==> '/' !in components[i] && '\\' !in components[i]
    ensures AllProper(Resolve(stack, components))
    decreases |components|
  {
    if components != [] {
      ResolveIsProper(Enter(stack, components[0]), components[1..]);
    }
  }

  lemma {:induction false} ProperResolves(stack: seq<string>, components: seq<string>)
    requires AllProper(components)
    ensures Resolve(stack, components) == stack + components
    decreases |components|
  {
    if components == [] {
      assert stack + components == stack;
    } else {
      assert Proper(components[0]);
      ProperResolves(stack + [components[0]], components[1..]);
      assert stack + [components[0]] + components[1..] == stack + components;
    }
  }

  lemma {:induction false} ShowSnoc(stack: seq<string>, c: string)
    ensures Show(stack + [c]) == Show(stack) + c + "/"
  {
    if stack == [] {
      assert [c][1..] == [];
      assert stack + [c] == [c];
      assert Show([c]) == c + "/" + Show([]);
      assert c + "/" + "" == "" + c + "/";
    } else {
      ShowSnoc(stack[1..], c);
      assert (stack + [c])[1..] == stack[1..] + [c];
      assert (stack + [c])[0] == stack[0];
      assert stack[0] + "/" + (Show(stack[1..]) + c + "/") == (stack[0] + "/" + Show(stack[1..])) + c + "/";
    }
  }

  lemma ShowEnds(stack: seq<string>)
    ensures "C:/" + Show(stack) != "" && ("C:/" + Show(stack))[|Show(stack)| + 2] == '/'
  {
    if stack != [] {
      var n := |stack| - 1;
      assert stack[..n] + [stack[n]] == stack;
      ShowSnoc(stack[..n], stack[n]);
    }
  }

  /** What the output looks like before a component is dropped. */
  lemma LastShown(stack: seq<string>)
    requires AllProper(stack)
    ensures stack == [] ==> Show(stack) == "" && Enter(stack, "..") == []
    ensures stack != [] ==>
              var n := |stack| - 1; var kept := "C:/" + Show(stack[..n]);
              && "C:/" + Show(stack) == kept + stack[n] + "/" && kept[|kept| - 1] == '/' && '/' !in stack[n]
                 && stack[n] != ""
              && Enter(stack, "..") == stack[..n]
  {
    if stack != [] {
      var n := |stack| - 1;
      assert stack[..n] + [stack[n]] == stack && Proper(stack[n]);
      ShowSnoc(stack[..n], stack[n]);
      ShowEnds(stack[..n]);
      hide Show;
    }
  }

  lemma {:induction false} SplitShow(stack: seq<string>)
    requires stack != [] && AllProper(stack)
    ensures |Show(stack)| > 1 && Split(Show(stack)[..|Show(stack)| - 1]) == stack
  {
    var s := Show(stack);
    assert Proper(stack[0]);
    if |stack| == 1 {
      assert stack[1..] == [] && stack == [stack[0]];
      assert Show(stack[1..]) == "";
      assert s == stack[0] + "/" + "";
      assert s[..|s| - 1] == stack[0];
      SplitAt(stack[0], "");
    } else {
      SplitShow(stack[1..]);
      var t := Show(stack[1..]);
      assert s[..|s| - 1] == stack[0] + "/" + t[..|t| - 1];
      SplitAt(stack[0], t[..|t| - 1]);
      assert [stack[0]] + stack[1..] == stack;
    }
  }

  lemma {:induction false} ShowForward(stack: seq<string>)
    requires AllProper(stack)
    ensures '\\' !in Show(stack)
  {
    if stack != [] {
      assert Proper(stack[0]);
      ShowForward(stack[1..]);
    }
  }

  lemma ForwardIs(s: string)
    requires '\\' !in s
    ensures Forward(s) == s
  {
    assert forall i :: 0 <= i < |s| ==> Forward(s)[i] == s[i];
  }

  // --- Theorems ---

  /** The stack a name resolves to. */
  function Stack(current: string, name: string): seq<string>
    requires Directory(current)
  {
    WholeIsLong(current, name);
    Resolve([], Split(Whole(current, name)[3..]))
  }

  /** No component of a normalised name is empty, a dot, two dots or contains a slash of either kind. */
  lemma StackIsProper(current: string, name: string)
    requires Directory(current)
    ensures AllProper(Stack(current, name))
  {
    WholeIsLong(current, name);
    SplitPlain(Whole(current, name)[3..]);
    ResolveIsProper([], Split(Whole(current, name)[3..]));
  }

  /** The name of a proper, non-empty stack resolves to that stack. */
  lemma NameResolves(current: string, stack: seq<string>)
    requires Directory(current) && stack != [] && AllProper(stack)
    ensures Stack(current, Name(stack)) == stack && Real(current, Name(stack)) == Some(Name(stack))
  {
    var name := Name(stack);
    SplitShow(stack);
    ShowForward(stack);
    assert name == "C:/" + Show(stack)[..|Show(stack)| - 1];
    ForwardIs(name);
    assert Absolute(name);
    assert name[3..] == Show(stack)[..|Show(stack)| - 1];
    ProperResolves([], stack);
    assert [] + stack == stack;
  }

  /** Normalising again gives the same name exactly if the name is not the bare root; the root's name is
      read as a relative one. */
  lemma NormalIsFixed(current: string, name: string)
    requires Directory(current) && Real(current, name).Some?
    ensures var r := Real(current, name).value; Real(current, r) == Some(r) <==> r != "C:"
  {
    StackIsProper(current, name);
    var stack := Stack(current, name);
    if stack != [] {
      SplitShow(stack);
      NameResolves(current, stack);
    } else {
      BareRoot(current);
    }
  }

  /** The bare root as a name means a directory of that name below the current one. */
  lemma BareRoot(current: string)
    requires Directory(current)
    ensures Stack(current, "C:") == Stack(current, "") + ["C:"]
            && Real(current, "C:") == Some(Name(Stack(current, "") + ["C:"]))
    ensures Real(current, "C:") != Some("C:")
  {
    Relative(current, "C:");
    Relative(current, "");
    var base := Stack(current, "");
    SplitAt("C:", "");
    SplitAt("", "");
    assert Forward("C:") == "C:" && Forward("") == "";
    EnterRoot(current, base);
    ShowSnoc(base, "C:");
  }

  lemma EnterRoot(current: string, base: seq<string>)
    requires Directory(current) && base == Resolve(Base(current), [""])
    ensures Resolve(Base(current), ["C:"]) == base + ["C:"]
  {
    assert [""][1..] == [] && ["C:"][1..] == [];
    assert Resolve(Base(current), [""]) == Resolve(Base(current), []);
    assert Resolve(Base(current), ["C:"]) == Resolve(Base(current) + ["C:"], []);
  }

  /** The stack of the current directory. */
  function Base(current: string): seq<string>
    requires Directory(current)
  {
    if |current| == 2 then [] else Resolve([], Split(Forward(current)[3..]))
  }

  /** A relative name is resolved from the current directory's stack. */
  lemma Relative(current: string, name: string)
    requires Directory(current) && !Absolute(Forward(name))
    ensures Stack(current, name) == Resolve(Base(current), Split(Tail(name)))
            && Real(current, name) == Some(Name(Stack(current, name)))
  {
    WholeIsLong(current, name);
    WholeOf(current, name);
    var whole := Whole(current, name);
    if |current| == 2 {
      assert whole[3..] == Tail(name);
    } else {
      assert whole[3..] == Forward(current)[3..] + "/" + Tail(name);
      SplitJoins(Forward(current)[3..], Tail(name));
      ResolveJoins([], Split(Forward(current)[3..]), Split(Tail(name)));
    }
  }

  /** A relative name with slashes forward and one leading slash dropped. */
  function Tail(name: string): string {
    if At(name, 0) in {'/', '\\'} then Forward(name)[1..] else Forward(name)
  }

  lemma WholeOf(current: string, name: string)
    requires Directory(current) && !Absolute(Forward(name))
    ensures Whole(current, name) == Forward(current) + "/" + Tail(name)
  {
    hide Forward;
    if At(name, 0) in {'/', '\\'} {
      SlashFirst(name);
      Rejoined(current, name, "");
      Associative(Forward(current), "/", Tail(name));
    } else {
      Associative(current, "/", Forward(name));
      Rejoined(current, name, "/");
      Associative(Forward(current), "/", Forward(name));
    }
  }

  lemma Rejoined(current: string, name: string, between: string)
    requires '\\' !in between
    ensures Forward(current + (between + Forward(name))) == Forward(current) + (between + Forward(name))
    ensures Forward(current + Forward(name)) == Forward(current) + Forward(name)
  {
    ForwardJoins(current, between + Forward(name));
    ForwardJoins(current, Forward(name));
    ForwardIs(between + Forward(name));
    ForwardIs(Forward(name));
  }

  lemma Associative(a: string, b: string, c: string)
    ensures a + b + c == a + (b + c)
  {
  }

  lemma SlashFirst(name: string)
    requires At(name, 0) in {'/', '\\'}
    ensures Forward(name) == "/" + Tail(name)
  {
  }

  lemma ForwardJoins(a: string, b: string)
    ensures Forward(a + b) == Forward(a) + Forward(b)
  {
    assert forall i :: 0 <= i < |a + b| ==> Forward(a + b)[i] == (Forward(a) + Forward(b))[i];
  }

  /** A relative name after a slash inside it. */
  lemma RelativeJoined(current: string, a: string, b: string)
    requires Directory(current) && a != "" && a[0] !in {'/', '\\'} && !Absolute(Forward(a) + "/")
    ensures Stack(current, a + "/" + b) == Resolve(Base(current), Split(Forward(a)) + Split(Forward(b)))
    ensures Real(current, a + "/" + b) == Some(Name(Stack(current, a + "/" + b)))
  {
    var name := a + "/" + b;
    ForwardJoins(a + "/", b);
    ForwardJoins(a, "/");
    ForwardIs("/");
    var f := Forward(a) + "/" + Forward(b);
    assert Forward(name) == f && At(name, 0) == a[0];
    assert At(f, 1) == At(Forward(a) + "/", 1);
    assert |a| > 1 ==> At(f, 2) == At(Forward(a) + "/", 2);
    hide Forward, Split, Resolve, Stack, Real, Name, Base;
    Relative(current, name);
    SplitJoins(Forward(a), Forward(b));
  }

  lemma ComponentFirst(c: string, b: string)
    requires Plain(c) && '\\' !in c
    ensures Split(Forward(c + "/" + b)) == [c] + Split(Forward(b))
  {
    ForwardJoins(c + "/", b);
    ForwardIs(c + "/");
    hide Forward;
    SplitAt(c, Forward(b));
  }

  lemma InsertedComponent(current: string, a: string, c: string, b: string)
    requires Directory(current) && a != "" && a[0] !in {'/', '\\'} && !Absolute(Forward(a) + "/")
    requires c == "" || c == "."
    ensures Real(current, a + "/" + (c + "/" + b)) == Real(current, a + "/" + b)
  {
    hide Forward, Split, Resolve, Name, Base, Absolute, Real, Stack;
    ComponentFirst(c, b);
    RelativeJoined(current, a, b);
    RelativeJoined(current, a, c + "/" + b);
    NothingBefore(Base(current), Split(Forward(a)), c, Split(Forward(b)));
  }

  lemma NothingBefore(stack: seq<string>, a: seq<string>, c: string, b: seq<string>)
    requires c == "" || c == "."
    ensures Resolve(stack, a + ([c] + b)) == Resolve(stack, a + b)
  {
    NothingEntered(stack, a, b);
    assert a + ([c] + b) == a + [c] + b;
  }

  /** A dot between slashes, and a doubled slash, do not change what a relative name means. */
  lemma DotsAndSlashes(current: string, a: string, b: string)
    requires Directory(current) && a != "" && a[0] !in {'/', '\\'} && !Absolute(Forward(a) + "/")
    ensures Real(current, a + "/./" + b) == Real(current, a + "/" + b) == Real(current, a + "//" + b)
  {
    hide Forward, Absolute, Real;
    InsertedComponent(current, a, ".", b);
    InsertedComponent(current, a, "", b);
    assert a + "/./" + b == a + "/" + ("." + "/" + b) && a + "//" + b == a + "/" + ("" + "/" + b);
  }

  /** Exactly the names on other drives have no normal form. */
  lemma OtherDrives(current: string, name: string)
    requires Directory(current)
    ensures Real(current, name).None? <==> Absolute(Forward(name)) && name[0] !in {'C', 'c'}
  {
    hide Resolve, Split, Name, Forward;
    if Absolute(Forward(name)) {
      assert Forward(name)[0] == Slash(name[0]);
    } else {
      WholeOf(current, name);
      assert Forward(current)[0] == Slash(current[0]);
    }
  }

  /** A relative name means the same from the normalised current directory as from the current directory. */
  lemma FromNormalCurrent(current: string, name: string)
    requires Directory(current) && !Absolute(Forward(name))
    ensures Directory(Name(Base(current))) && Real(Name(Base(current)), name) == Real(current, name)
  {
    hide Stack, Split, Resolve, Tail, Forward;
    BaseIsProper(current);
    NormalBase(Base(current));
    hide Base, Directory, Name;
    Relative(current, name);
    Relative(Name(Base(current)), name);
  }

  lemma NormalBase(stack: seq<string>)
    requires AllProper(stack)
    ensures Directory(Name(stack)) && Base(Name(stack)) == stack
  {
    if stack != [] {
      SplitShow(stack);
      ShowForward(stack);
      var n := Name(stack);
      assert n == "C:/" + Show(stack)[..|Show(stack)| - 1];
      ForwardIs(n);
      assert n[3..] == Show(stack)[..|Show(stack)| - 1];
      ProperResolves([], stack);
      assert [] + stack == stack;
    }
  }

  lemma BaseIsProper(current: string)
    requires Directory(current)
    ensures AllProper(Base(current))
  {
    if |current| > 2 {
      SplitPlain(Forward(current)[3..]);
      ResolveIsProper([], Split(Forward(current)[3..]));
    }
  }

  /** Entering a directory and leaving it again changes nothing, at any place of a path. */
  lemma UpUndoesDown(stack: seq<string>, c: string, rest: seq<string>)
    requires Proper(c)
    ensures Resolve(stack, [c, ".."] + rest) == Resolve(stack, rest)
  {
    assert ([c, ".."] + rest)[1..] == [".."] + rest;
    assert ([".."] + rest)[1..] == rest;
    assert (stack + [c])[..|stack|] == stack;
    assert Resolve(stack, [c, ".."] + rest) == Resolve(stack + [c], [".."] + rest) == Resolve(stack, rest);
  }

  /** A normalised name can be the current directory. */
  lemma NormalIsDirectory(current: string, name: string)
    requires Directory(current)
    ensures Real(current, name).Some? ==> Directory(Real(current, name).value)
  {
    hide Whole, Split, Resolve;
    ShowEnds(Stack(current, name));
  }

  lemma NoBackslashes(current: string, name: string)
    requires Directory(current) && Real(current, name).Some?
    ensures '\\' !in Real(current, name).value
  {
    StackIsProper(current, name);
    ShowForward(Stack(current, name));
    hide Whole, Split, Resolve;
  }

  // --- The host's name ---

  datatype Translation = Aborts | Refused | Host(path: string)

  /** The host's name for a guest name: the rest of the normalised name after the program's directory. */
  function Translate(base: string, current: string, name: string): Translation
    requires Directory(current)
  {
    var full := Real(current, name);
    if full == None then Aborts
    else if Forward(PROGRAM) <= full.value then Host(base + full.value[|PROGRAM|..])
    else Refused
  }

  // --- The source's code ---

  class Files {
    var current: string

    ghost predicate Valid()
      reads this
    {
      Directory(current)
    }

    constructor ()
      ensures Valid() && current == PROGRAM
    {
      current := PROGRAM;
    }

    /** The loops that turn backslashes into slashes. */
    static method TurnSlashes(s: string) returns (r: string)
      ensures r == Forward(s)
    {
      r := s;
      for i := 0 to |s|
        invariant |r| == |s|
        invariant forall k :: 0 <= k < |s| ==> r[k] == if k < i then Slash(s[k]) else s[k]
      {
        if r[i] == '\\' {
          r := r[i := '/'];
        }
      }
      assert forall k :: 0 <= k < |s| ==> r[k] == Forward(s)[k];
    }

    /** The name made absolute. */
    method MakeWhole(name: string) returns (copy: string)
      requires Valid()
      ensures copy == Whole(current, name)
    {
      copy := TurnSlashes(name);
      if At(copy, 1) != ':' || At(copy, 2) != '/' {
        if At(copy, 0) == '/' {
          copy := current + copy;
        } else {
          copy := current + "/" + copy;
        }
        copy := TurnSlashes(copy);
      } else {
        ghost var before := copy;
        copy := TurnSlashes(copy);
        ForwardIs(before);
      }
    }

    /** The component at the front of the rest of the text, with the position after it. */
    static method TakeComponent(copy: string, start: nat) returns (component: string, next: nat)
      requires start <= |copy|
      ensures start <= next <= |copy| && component == copy[start..next] && Plain(component)
      ensures next < |copy| ==> copy[next] == '/'
      ensures Split(copy[start..]) == [component] + if next < |copy| then Split(copy[next + 1..]) else []
    {
      component := "";
      next := start;
      while next < |copy| && copy[next] != '/'
        invariant start <= next <= |copy| && component == copy[start..next] && Plain(component)
      {
        component := component + [copy[next]];
        next := next + 1;
      }
      if next < |copy| {
        assert copy[start..] == component + "/" + copy[next + 1..];
        SplitAt(component, copy[next + 1..]);
      } else {
        assert copy[start..] == component;
        SplitAt(component, "");
      }
    }

    /** Drops the last component of the output by scanning back for a slash, which is always found. */
    static method DropLast(out: string, ghost stack: seq<string>) returns (r: string)
      requires AllProper(stack) && out == "C:/" + Show(stack)
      ensures r == "C:/" + Show(Enter(stack, ".."))
    {
      var p := |out| - 2;
      r := out;
      LastShown(stack);
      hide Show, Proper, AllProper;
      if p != 1 {
        ghost var n := |stack| - 1;
        ghost var kept := "C:/" + Show(stack[..n]);
        p := ScanBack(out, kept, stack[n]);
        r := out[..p + 1];
        assert r == kept;
      }
    }

    /** The scan: from the character before the final slash back to the slash before it. */
    static method ScanBack(out: string, ghost kept: string, ghost last: string) returns (p: nat)
      requires kept != "" && kept[|kept| - 1] == '/' && '/' !in last && out == kept + last + "/"
      ensures p == |kept| - 1
    {
      p := |out| - 2;
      while out[p] != '/'
        invariant |kept| - 1 <= p < |out| - 1
        decreases p
      {
        assert p != |kept| - 1;
        p := p - 1;
      }
    }

    /** What a component does to the output. */
    static method Apply(out: string, component: string, ghost stack: seq<string>) returns (r: string)
      requires AllProper(stack) && out == "C:/" + Show(stack)
      ensures r == "C:/" + Show(Enter(stack, component))
    {
      hide AllProper, Show;
      r := out;
      if component == "." || component == "" {
      } else if component == ".." {
        r := DropLast(out, stack);
      } else {
        ShowSnoc(stack, component);
        r := out + component + "/";
      }
    }

    /** target_realpath. */
    method RealPath(name: string) returns (r: Option<string>)
      requires Valid()
      ensures r == Real(current, name)
    {
      hide Split, Resolve, Show, Enter, AllProper, Whole, Name, Directory;
      var copy := MakeWhole(name);
      WholeIsLong(current, name);
      if copy[0] != 'C' && copy[0] != 'c' {
        return None;
      }
      var out := "C:/";
      var pos, end := 3, false;
      ghost var stack: seq<string> := [];
      EmptyStack();
      ghost var whole := Resolve([], Split(copy[3..]));
      while !end
        invariant 0 <= pos && (!end ==> pos <= |copy|)
        invariant AllProper(stack) && out == "C:/" + Show(stack)
        invariant whole == if end then stack else Resolve(stack, Split(copy[pos..]))
        decreases !end, |copy| - pos
      {
        var component;
        ghost var start := pos;
        component, pos := TakeComponent(copy, pos);
        NextComponent(stack, component, copy, start, pos);
        end := pos == |copy|;
        pos := pos + 1;
        out := Apply(out, component, stack);
        stack := Enter(stack, component);
      }
      NameIs(stack);
      out := out[..|out| - 1];
      r := Some(out);
    }

    /** The comparing loop of translate_path: how far the name and the program's directory agree, where a slash in
        the name also meets a backslash. */
    static method AgreeFor(copy: string) returns (i: nat)
      requires '\\' !in copy
      ensures i <= |PROGRAM| && (i == |PROGRAM| <==> Forward(PROGRAM) <= copy) && i <= |copy|
    {
      i := 0;
      ghost var forward := Forward(PROGRAM);
      var program := PROGRAM;
      assert |forward| == |program| && forall k :: 0 <= k < |program| ==> forward[k] == Slash(program[k]);
      hide Forward, PROGRAM;
      while i < |program| && i < |copy|
        invariant 0 <= i <= |program| && i <= |copy|
        invariant forall k :: 0 <= k < i ==> forward[k] == copy[k]
      {
        if program[i] != copy[i] && (program[i] != '\\' || copy[i] != '/') {
          assert forward[i] != copy[i];
          return;
        }
        i := i + 1;
      }
    }

    /** translate_path: a host name for guest names that begin with the program's directory. */
    method TranslatePath(base: string, name: string) returns (r: Translation)
      requires Valid()
      ensures r == Translate(base, current, name)
    {
      hide Real, Directory, Forward;
      var full := RealPath(name);
      if full == None {
        return Aborts;
      }
      NoBackslashes(current, name);
      var i := AgreeFor(full.value);
      if i < |PROGRAM| {
        return Refused;
      }
      r := Host(base + full.value[i..]);
    }

    /** uw_file_set_current_directory, with the host's directories as a parameter. A failure terminates
        the program. */
    method SetCurrent(base: string, name: string, exists_: string -> bool) returns (ok: bool)
      requires Valid()
      modifies this
      ensures Valid() && (!ok ==> current == old(current))
      ensures ok ==> Real(old(current), name) == Some(current)
      ensures ok && current != "C:" ==> Forward(PROGRAM) <= current && exists_(base + current[|PROGRAM|..])
      ensures !ok ==> !(Real(old(current), name).Some?
                        && Translate(base, old(current), Real(old(current), name).value).Host?
                        && exists_(Translate(base, old(current), Real(old(current), name).value).path))
    {
      NormalIsDirectory(current, name);
      hide Real, Directory;
      var full := RealPath(name);
      if full == None {
        return false;
      }
      NormalIsFixed(current, name);
      var host := TranslatePath(base, full.value);
      ok := host.Host? && exists_(host.path);
      if ok {
        current := full.value;
      }
    }
  }

  lemma EmptyStack()
    ensures AllProper([]) && "C:/" + Show([]) == "C:/"
  {
  }

  lemma NameIs(stack: seq<string>)
    ensures ("C:/" + Show(stack))[..|"C:/" + Show(stack)| - 1] == Name(stack)
  {
  }

  lemma NextComponent(stack: seq<string>, component: string, copy: string, start: nat, next: nat)
    requires AllProper(stack) && Plain(component) && start <= next <= |copy| && component == copy[start..next]
    requires '\\' !in copy
    requires Split(copy[start..]) == [component] + if next < |copy| then Split(copy[next + 1..]) else []
    ensures AllProper(Enter(stack, component))
    ensures Resolve(stack, Split(copy[start..]))
            == if next < |copy| then Resolve(Enter(stack, component), Split(copy[next + 1..])) else Enter(stack,
               component)
  {
    var rest := if next < |copy| then Split(copy[next + 1..]) else [];
    assert ([component] + rest)[1..] == rest;
    assert forall c :: c in component ==> c in copy;
  }
}
