/** `extractVariables`: curly fragments, then square fragments of the rewritten
    text, are replaced by `{{ variableN }}` placeholders backed by one
    registry, and the registry is rendered as `- var` declarations.

    The functions below specify the result; the methods at the end are the
    step-by-step version of the source (counter, registry, string built by
    `+=`) and are proved to compute the same thing. */
module Extract {
  import opened Wrappers
  import opened Text
  import opened Scanner
  import opened Registry
  import opened Preferences
  import opened Seqs

  /** `{` becomes `(` and `}` becomes `)`; other characters stay. */
  function Paren(c: char): char {
    if c == '{' then '(' else if c == '}' then ')' else c
  }

  /** `match.replace(/{/g, '(').replace(/}/g, ')')` */
  function Parenthesize(m: string): string {
    seq(|m|, k requires 0 <= k < |m| => Paren(m[k]))
  }

  /** The value registered for a match: curly matches are parenthesized,
      square matches are kept verbatim. */
  function Stored(p: Pattern, m: string): string {
    if p == Curly then Parenthesize(m) else m
  }

  function StoredAll(p: Pattern, ms: seq<string>): (vs: seq<string>)
    ensures |vs| == |ms|
  {
    if ms == [] then [] else [Stored(p, ms[0])] + StoredAll(p, ms[1..])
  }

  /** The replacement text `{{ ${variableName} }}`. */
  function Placeholder(name: string): string {
    "{{ " + name + " }}"
  }

  /** One `replace` call: the scanned pieces in order, each match handed to the
      callback, which looks its stored value up in (or adds it to) the registry
      and returns the placeholder. */
  function Substitute(ps: seq<Piece>, p: Pattern, reg: seq<Entry>): (r: (string, seq<Entry>))
    requires Valid(reg)
    ensures Valid(r.1)
    ensures |reg| <= |r.1| && r.1[..|reg|] == reg
    decreases |ps|
  {
    if ps == [] then ("", reg)
    else match ps[0]
      case Keep(c) =>
        var rest := Substitute(ps[1..], p, reg);
        ([c] + rest.0, rest.1)
      case Drop(seg) =>
        var named := Intern(reg, Stored(p, seg));
        var rest := Substitute(ps[1..], p, named.1);
        (Placeholder(named.0) + rest.0, rest.1)
  }

  /** The name `reg` holds for `value` (every scanned value has one once its
      pass is over, by `SubstituteStores`). */
  function NameFor(reg: seq<Entry>, value: string): string {
    match KeyOf(reg, value)
    case Some(key) => key
    case None => ""
  }

  /** Reference rendering of a scan against a finished registry: every kept
      character stays and every match becomes the placeholder of the name the
      registry holds for its stored value. */
  function Render(ps: seq<Piece>, p: Pattern, reg: seq<Entry>): string
    decreases |ps|
  {
    if ps == [] then ""
    else match ps[0]
      case Keep(c) => [c] + Render(ps[1..], p, reg)
      case Drop(seg) => Placeholder(NameFor(reg, Stored(p, seg))) + Render(ps[1..], p, reg)
  }

  /** The curly pass, when enabled, from the empty registry. */
  function CurlyPass(s: string, o: Options): (r: (string, seq<Entry>))
    ensures Valid(r.1)
  {
    if o.curlyVariables then Substitute(Tokenize(Curly, s), Curly, []) else (s, [])
  }

  /** The square pass, when enabled, on the text and registry the curly pass left. */
  function SquarePass(s: string, reg: seq<Entry>, o: Options): (r: (string, seq<Entry>))
    requires Valid(reg)
    ensures Valid(r.1)
  {
    if o.squareVariables then Substitute(Tokenize(Square, s), Square, reg) else (s, reg)
  }

  /** Both passes: the rewritten text and the final registry. */
  function Scan(s: string, o: Options): (r: (string, seq<Entry>))
    ensures Valid(r.1)
  {
    var c := CurlyPass(s, o);
    SquarePass(c.0, c.1, o)
  }

  /** The values the curly scan stores, in scan order. */
  function CurlyValues(s: string, o: Options): seq<string> {
    if o.curlyVariables then StoredAll(Curly, Dropped(Tokenize(Curly, s))) else []
  }

  /** The values the square scan of the curly-rewritten text stores, in scan order. */
  function SquareValues(s: string, o: Options): seq<string> {
    if o.squareVariables then StoredAll(Square, Dropped(Tokenize(Square, CurlyPass(s, o).0))) else []
  }

  /** The declaration `- var ${variableName} = \`${stringValue}\``. */
  function DeclLine(e: Entry): string {
    "- var " + e.name + " = `" + e.value + "`"
  }

  function DeclLines(reg: seq<Entry>): (ls: seq<string>)
    ensures |ls| == |reg|
  {
    seq(|reg|, k requires 0 <= k < |reg| => DeclLine(reg[k]))
  }

  /** The declarations block: one line per entry in insertion order, joined by
      newlines, with no newline after the last. */
  function Declarations(reg: seq<Entry>): string {
    Join(DeclLines(reg), "\n")
  }

  /** The object `extractVariables` returns. */
  datatype Extracted = Extracted(variables: string, mypug: string)

  function Extract(s: string, o: Options): Extracted {
    var r := Scan(s, o);
    Extracted(Declarations(r.1), r.0)
  }

  // ---------------------------------------------------------------------
  // Properties of the specification

  /** The registry after a pass is the one the callbacks build from the stored
      values of the matches, in scan order. */
  lemma {:induction false} SubstituteRegistry(ps: seq<Piece>, p: Pattern, reg: seq<Entry>)
    requires Valid(reg)
    ensures Substitute(ps, p, reg).1 == InternAll(reg, StoredAll(p, Dropped(ps)))
    decreases |ps|
  {
    if ps != [] {
      match ps[0]
      case Keep(c) =>
        assert Dropped(ps) == Dropped(ps[1..]);
        SubstituteRegistry(ps[1..], p, reg);
      case Drop(seg) =>
        assert StoredAll(p, Dropped(ps)) == [Stored(p, seg)] + StoredAll(p, Dropped(ps[1..]));
        SubstituteRegistry(ps[1..], p, Intern(reg, Stored(p, seg)).1);
    }
  }

  /** After a pass every stored value of its matches is in the registry. */
  lemma {:induction false} SubstituteStores(ps: seq<Piece>, p: Pattern, reg: seq<Entry>)
    requires Valid(reg)
    ensures forall seg :: seg in Dropped(ps) ==> Stored(p, seg) in Values(Substitute(ps, p, reg).1)
    decreases |ps|
  {
    if ps != [] {
      if ps[0].Keep? {
        SubstituteStores(ps[1..], p, reg);
        StoresKeepStep(ps, p, reg);
      } else {
        SubstituteStores(ps[1..], p, Intern(reg, Stored(p, ps[0].seg)).1);
        StoresDropStep(ps, p, reg);
      }
    }
  }

  /** The step of `SubstituteStores` for a kept character. */
  lemma StoresKeepStep(ps: seq<Piece>, p: Pattern, reg: seq<Entry>)
    requires Valid(reg) && ps != [] && ps[0].Keep?
    requires forall seg :: seg in Dropped(ps[1..]) ==> Stored(p, seg) in Values(Substitute(ps[1..], p, reg).1)
    ensures forall seg :: seg in Dropped(ps) ==> Stored(p, seg) in Values(Substitute(ps, p, reg).1)
  {
    assert Dropped(ps) == Dropped(ps[1..]);
    var rest := Substitute(ps[1..], p, reg);
    assert Substitute(ps, p, reg) == ([ps[0].c] + rest.0, rest.1);
  }

  /** The step of `SubstituteStores` for a match: its value is in the registry
      from its own callback on. */
  lemma StoresDropStep(ps: seq<Piece>, p: Pattern, reg: seq<Entry>)
    requires Valid(reg) && ps != [] && ps[0].Drop?
    requires var reg1 := Intern(reg, Stored(p, ps[0].seg)).1;
      forall seg :: seg in Dropped(ps[1..]) ==> Stored(p, seg) in Values(Substitute(ps[1..], p, reg1).1)
    ensures forall seg :: seg in Dropped(ps) ==> Stored(p, seg) in Values(Substitute(ps, p, reg).1)
  {
    var named := Intern(reg, Stored(p, ps[0].seg));
    var rest := Substitute(ps[1..], p, named.1);
    SubstituteDrop(ps, p, reg);
    DroppedDrop(ps);
    PrefixValues(named.1, rest.1);
    StoredMembers(p, ps[0].seg, Dropped(ps[1..]), Values(rest.1));
  }

  lemma DroppedDrop(ps: seq<Piece>)
    requires ps != [] && ps[0].Drop?
    ensures Dropped(ps) == [ps[0].seg] + Dropped(ps[1..])
  {
  }

  /** Membership over a list with a new head. */
  lemma StoredMembers(p: Pattern, seg0: string, segs: seq<string>, vals: seq<string>)
    requires Stored(p, seg0) in vals
    requires forall seg :: seg in segs ==> Stored(p, seg) in vals
    ensures forall seg :: seg in [seg0] + segs ==> Stored(p, seg) in vals
  {
  }

  /** The rewritten text of a pass is the reference rendering against the
      registry the pass ends with: every match, wherever it stands, becomes the
      placeholder of the one name registered for its stored value. */
  lemma {:induction false} SubstituteRenders(ps: seq<Piece>, p: Pattern, reg: seq<Entry>)
    requires Valid(reg)
    ensures Substitute(ps, p, reg).0 == Render(ps, p, Substitute(ps, p, reg).1)
    decreases |ps|
  {
    if ps != [] {
      if ps[0].Keep? {
        SubstituteRenders(ps[1..], p, reg);
        RenderKeepStep(ps, p, reg);
      } else {
        SubstituteRenders(ps[1..], p, Intern(reg, Stored(p, ps[0].seg)).1);
        RenderDropStep(ps, p, reg);
      }
    }
  }

  /** The step of `SubstituteRenders` for a kept character. */
  lemma RenderKeepStep(ps: seq<Piece>, p: Pattern, reg: seq<Entry>)
    requires Valid(reg) && ps != [] && ps[0].Keep?
    requires Substitute(ps[1..], p, reg).0 == Render(ps[1..], p, Substitute(ps[1..], p, reg).1)
    ensures Substitute(ps, p, reg).0 == Render(ps, p, Substitute(ps, p, reg).1)
  {
    var rest := Substitute(ps[1..], p, reg);
    assert Substitute(ps, p, reg) == ([ps[0].c] + rest.0, rest.1);
  }

  /** The step of `SubstituteRenders` for a match: the name the callback
      returned is still the registry's name for the value at the end. */
  lemma RenderDropStep(ps: seq<Piece>, p: Pattern, reg: seq<Entry>)
    requires Valid(reg) && ps != [] && ps[0].Drop?
    requires var reg1 := Intern(reg, Stored(p, ps[0].seg)).1;
      Substitute(ps[1..], p, reg1).0 == Render(ps[1..], p, Substitute(ps[1..], p, reg1).1)
    ensures Substitute(ps, p, reg).0 == Render(ps, p, Substitute(ps, p, reg).1)
  {
    var v := Stored(p, ps[0].seg);
    var named := Intern(reg, v);
    var rest := Substitute(ps[1..], p, named.1);
    SubstituteDrop(ps, p, reg);
    RenderDrop(ps, p, rest.1);
    NameKept(named.0, named.1, rest.1, v);
  }

  /** The name a callback returned survives later callbacks. */
  lemma NameKept(name: string, r1: seq<Entry>, r2: seq<Entry>, v: string)
    requires KeyOf(r1, v) == Some(name)
    requires |r1| <= |r2| && r2[..|r1|] == r1
    ensures NameFor(r2, v) == name
  {
    KeyOfStable(r1, r2, v);
  }

  lemma SubstituteDrop(ps: seq<Piece>, p: Pattern, reg: seq<Entry>)
    requires Valid(reg) && ps != [] && ps[0].Drop?
    ensures var named := Intern(reg, Stored(p, ps[0].seg));
      var rest := Substitute(ps[1..], p, named.1);
      Substitute(ps, p, reg) == (Placeholder(named.0) + rest.0, rest.1)
  {
  }

  lemma RenderDrop(ps: seq<Piece>, p: Pattern, reg: seq<Entry>)
    requires ps != [] && ps[0].Drop?
    ensures Render(ps, p, reg) == Placeholder(NameFor(reg, Stored(p, ps[0].seg))) + Render(ps[1..], p, reg)
  {
  }

  /** Values stored in a prefix of a registry are stored in the registry. */
  lemma PrefixValues(r1: seq<Entry>, r2: seq<Entry>)
    requires |r1| <= |r2| && r2[..|r1|] == r1
    ensures forall v :: v in Values(r1) ==> v in Values(r2)
  {
    forall v | v in Values(r1) ensures v in Values(r2) {
      var k :| 0 <= k < |r1| && Values(r1)[k] == v;
      assert Values(r2)[k] == v;
    }
  }

  /** Rendering only looks the stored values up, so a longer registry that
      starts with the same entries renders the same text. */
  lemma {:induction false} RenderStable(ps: seq<Piece>, p: Pattern, r1: seq<Entry>, r2: seq<Entry>)
    requires |r1| <= |r2| && r2[..|r1|] == r1
    requires forall seg :: seg in Dropped(ps) ==> Stored(p, seg) in Values(r1)
    ensures Render(ps, p, r1) == Render(ps, p, r2)
    decreases |ps|
  {
    if ps != [] {
      match ps[0]
      case Keep(_) =>
        assert Dropped(ps) == Dropped(ps[1..]);
        RenderStable(ps[1..], p, r1, r2);
      case Drop(seg) =>
        assert Dropped(ps) == [seg] + Dropped(ps[1..]);
        RenderStable(ps[1..], p, r1, r2);
        KeyOfStable(r1, r2, Stored(p, seg));
    }
  }

  /** A pass over pieces without matches keeps the text and the registry. */
  lemma {:induction false} SubstituteNoMatch(ps: seq<Piece>, p: Pattern, reg: seq<Entry>)
    requires Valid(reg) && Dropped(ps) == []
    ensures Substitute(ps, p, reg) == (Flatten(ps), reg)
    decreases |ps|
  {
    if ps != [] {
      match ps[0]
      case Keep(_) => SubstituteNoMatch(ps[1..], p, reg);
      case Drop(_) => assert false;
    }
  }

  /** Naming order and deduplication: the final registry is valid (names
      `variable1`, `variable2`, ... with no gaps, no value twice); its values
      are the stored values of all matches, curly ones first, each once, in
      first-encounter order; and the entries the curly pass made come first. */
  lemma ExtractRegistry(s: string, o: Options)
    ensures Valid(Scan(s, o).1)
    ensures Values(Scan(s, o).1) == FirstSeen(CurlyValues(s, o) + SquareValues(s, o), [])
    ensures forall v :: v in Values(Scan(s, o).1) <==> v in CurlyValues(s, o) + SquareValues(s, o)
    ensures Values(CurlyPass(s, o).1) == FirstSeen(CurlyValues(s, o), [])
    ensures |CurlyPass(s, o).1| <= |Scan(s, o).1| && Scan(s, o).1[..|CurlyPass(s, o).1|] == CurlyPass(s, o).1
  {
    var c := CurlyPass(s, o);
    var cv, sv := CurlyValues(s, o), SquareValues(s, o);
    if o.curlyVariables {
      SubstituteRegistry(Tokenize(Curly, s), Curly, []);
    }
    if o.squareVariables {
      SubstituteRegistry(Tokenize(Square, c.0), Square, c.1);
    }
    InternAllValues([], cv);
    assert Values([]) == [];
    assert [] + FirstSeen(cv, []) == FirstSeen(cv, []);
    if !o.curlyVariables {
      assert cv == [] && c.1 == [];
    }
    InternAllValues(c.1, sv);
    if !o.squareVariables {
      assert sv == [] && Scan(s, o).1 == c.1;
    }
    FirstSeenAppend(cv, sv, []);
    assert [] + FirstSeen(cv, []) == Values(c.1);
    FirstSeenMembers(cv + sv, []);
  }

  /** The rewritten text: each enabled pass renders its scan against the final
      registry, so equal stored values get equal placeholders across both
      passes. */
  lemma ExtractBody(s: string, o: Options)
    ensures var reg := Scan(s, o).1;
      var s1 := CurlyPass(s, o).0;
      s1 == (if o.curlyVariables then Render(Tokenize(Curly, s), Curly, reg) else s)
      && Scan(s, o).0 == (if o.squareVariables then Render(Tokenize(Square, s1), Square, reg) else s1)
  {
    var c := CurlyPass(s, o);
    var reg := Scan(s, o).1;
    ExtractRegistry(s, o);
    if o.curlyVariables {
      SubstituteRenders(Tokenize(Curly, s), Curly, []);
      SubstituteStores(Tokenize(Curly, s), Curly, []);
      RenderStable(Tokenize(Curly, s), Curly, c.1, reg);
    }
    if o.squareVariables {
      SubstituteRenders(Tokenize(Square, c.0), Square, c.1);
    }
  }

  /** An empty registry declares nothing, and a non-empty one declares something. */
  lemma DeclarationsEmpty(reg: seq<Entry>)
    ensures Declarations(reg) == "" <==> reg == []
  {
    if reg != [] {
      var ls := DeclLines(reg);
      assert ls[0][0] == '-';
      if |ls| == 1 {
        assert Declarations(reg) == ls[0];
      } else {
        assert Declarations(reg) == ls[0] + "\n" + Join(ls[1..], "\n");
      }
    }
  }

  /** The identity case: the declarations are empty exactly when no enabled
      scan matched anything, and then the text comes back unchanged. */
  lemma ExtractNothingMatched(s: string, o: Options)
    ensures Extract(s, o).variables == "" <==> CurlyValues(s, o) + SquareValues(s, o) == []
    ensures Extract(s, o).variables == "" ==> Extract(s, o).mypug == s
  {
    var all := CurlyValues(s, o) + SquareValues(s, o);
    var reg := Scan(s, o).1;
    ExtractRegistry(s, o);
    DeclarationsEmpty(reg);
    if all != [] {
      assert all[0] in all;
      assert reg != [];
    }
    if all == [] {
      assert Values(reg) == [];
      var c := CurlyPass(s, o);
      if o.curlyVariables {
        SubstituteNoMatch(Tokenize(Curly, s), Curly, []);
      }
      if o.squareVariables {
        SubstituteNoMatch(Tokenize(Square, c.0), Square, c.1);
      }
    }
  }

  /** Reference for the registry a run ends with: the k-th of `vals`, from 0,
      named `variable${k + 1}`. */
  function Numbered(vals: seq<string>): (reg: seq<Entry>)
    ensures |reg| == |vals|
  {
    seq(|vals|, k requires 0 <= k < |vals| => Entry(VarName(k + 1), vals[k]))
  }

  /** The declarations, independently of the registry: one line per distinct
      stored value, in first-encounter order (curly matches first), the k-th
      declaring `variable${k + 1}`; no value is declared twice. */
  lemma ExtractDeclarations(s: string, o: Options)
    ensures var vals := FirstSeen(CurlyValues(s, o) + SquareValues(s, o), []);
      Extract(s, o).variables == Declarations(Numbered(vals))
      && forall j, k :: 0 <= j < k < |vals| ==> vals[j] != vals[k]
  {
    var all := CurlyValues(s, o) + SquareValues(s, o);
    ExtractRegistry(s, o);
    ValidNumbered(Scan(s, o).1);
    FirstSeenDistinct(all, []);
  }

  /** A valid registry is the numbering of its values. */
  lemma ValidNumbered(reg: seq<Entry>)
    requires Valid(reg)
    ensures reg == Numbered(Values(reg))
  {
    ValidNames(reg);
    forall k | 0 <= k < |reg| ensures reg[k] == Numbered(Values(reg))[k] {
      assert Values(reg)[k] == reg[k].value;
    }
  }

  // ---------------------------------------------------------------------
  // The step-by-step version

  /** A pass over a text that starts with a match: the callback runs on the
      match, then the scan goes on after it. */
  lemma SubstituteMatchStep(p: Pattern, t: string, reg: seq<Entry>, n: nat)
    requires Valid(reg) && t != [] && MatchAt(p, t) == Some(n)
    ensures var named := Intern(reg, Stored(p, t[..n]));
      var rest := Substitute(Tokenize(p, t[n..]), p, named.1);
      Substitute(Tokenize(p, t), p, reg) == (Placeholder(named.0) + rest.0, rest.1)
  {
    var ps := Tokenize(p, t);
    assert ps[0] == Drop(t[..n]) && ps[1..] == Tokenize(p, t[n..]);
    SubstituteDrop(ps, p, reg);
  }

  /** A pass over a text that does not start with a match keeps its first
      character. */
  lemma SubstituteKeepStep(p: Pattern, t: string, reg: seq<Entry>)
    requires Valid(reg) && t != [] && MatchAt(p, t).None?
    ensures var rest := Substitute(Tokenize(p, t[1..]), p, reg);
      Substitute(Tokenize(p, t), p, reg) == ([t[0]] + rest.0, rest.1)
  {
    var ps := Tokenize(p, t);
    assert ps[0] == Keep(t[0]) && ps[1..] == Tokenize(p, t[1..]);
  }

  /** The callback for a value not stored yet: `variableMap[variableName] =
      myMatch` with `variableName` built from the counter. */
  lemma InternFresh(reg: seq<Entry>, value: string)
    requires Valid(reg) && value !in Values(reg)
    ensures Intern(reg, value) == (VarName(|reg| + 1), Put(reg, VarName(|reg| + 1), value))
  {
    var name := VarName(|reg| + 1);
    ValidNames(reg);
    forall k | 0 <= k < |reg| ensures reg[k].name != name {
      VarNameInjective(k + 1, |reg| + 1);
    }
  }

  /** The loop step of `ReplaceFragments` at a match keeps its invariant. */
  lemma MatchStepInvariant(p: Pattern, t: string, reg: seq<Entry>, n: nat, m: string,
                           name: string, reg': seq<Entry>, out: string, goal: string)
    requires Valid(reg) && t != [] && MatchAt(p, t) == Some(n) && t[..n] == m
    requires (name, reg') == Intern(reg, Stored(p, m))
    requires out + Substitute(Tokenize(p, t), p, reg).0 == goal
    ensures Valid(reg')
    ensures (out + Placeholder(name)) + Substitute(Tokenize(p, t[n..]), p, reg').0 == goal
    ensures Substitute(Tokenize(p, t[n..]), p, reg').1 == Substitute(Tokenize(p, t), p, reg).1
  {
    SubstituteMatchStep(p, t, reg, n);
    var rest := Substitute(Tokenize(p, t[n..]), p, reg');
    Assoc(out, Placeholder(name), rest.0);
  }

  /** The loop step of `ReplaceFragments` at a kept character keeps its invariant. */
  lemma KeepStepInvariant(p: Pattern, t: string, reg: seq<Entry>, out: string, goal: string)
    requires Valid(reg) && t != [] && MatchAt(p, t).None?
    requires out + Substitute(Tokenize(p, t), p, reg).0 == goal
    ensures (out + [t[0]]) + Substitute(Tokenize(p, t[1..]), p, reg).0 == goal
    ensures Substitute(Tokenize(p, t[1..]), p, reg).1 == Substitute(Tokenize(p, t), p, reg).1
  {
    SubstituteKeepStep(p, t, reg);
    var rest := Substitute(Tokenize(p, t[1..]), p, reg);
    Assoc(out, [t[0]], rest.0);
  }

  /** The arrow function handed to `replace`: look the stored value of the
      match up, and name and store it under `variable${variableCount}` when it
      is new. */
  method Callback(p: Pattern, m: string, count0: nat, reg0: seq<Entry>)
      returns (name: string, count: nat, reg: seq<Entry>)
    requires Valid(reg0) && count0 == |reg0| + 1
    ensures (name, reg) == Intern(reg0, Stored(p, m))
    ensures count == |reg| + 1
  {
    var value := Stored(p, m);
    var existing := FindKeyByValue(reg0, value);
    if existing.Some? {
      name, count, reg := existing.value, count0, reg0;
    } else {
      name := VarName(count0);
      reg := Put(reg0, name, value);
      count := count0 + 1;
      InternFresh(reg0, value);
    }
  }

  /** One `pug.replace(regex, callback)` with the callback's counter and
      registry: `count` is `variableCount`, `reg` is `variableMap`. */
  method ReplaceFragments(p: Pattern, s: string, count0: nat, reg0: seq<Entry>)
      returns (out: string, count: nat, reg: seq<Entry>)
    requires Valid(reg0) && count0 == |reg0| + 1
    ensures (out, reg) == Substitute(Tokenize(p, s), p, reg0)
    ensures count == |reg| + 1
  {
    ghost var goal := Substitute(Tokenize(p, s), p, reg0);
    out, count, reg := "", count0, reg0;
    var rest := s;
    while rest != []
      invariant Valid(reg) && count == |reg| + 1
      invariant out + Substitute(Tokenize(p, rest), p, reg).0 == goal.0
      invariant Substitute(Tokenize(p, rest), p, reg).1 == goal.1
      decreases |rest|
    {
      ghost var before := reg;
      var found := MatchAt(p, rest);
      if found.Some? {
        var n := found.value;
        var m := rest[..n];
        var name;
        name, count, reg := Callback(p, m, count, reg);
        MatchStepInvariant(p, rest, before, n, m, name, reg, out, goal.0);
        out := out + Placeholder(name);
        rest := rest[n..];
      } else {
        KeepStepInvariant(p, rest, reg, out, goal.0);
        out := out + [rest[0]];
        rest := rest[1..];
      }
    }
    assert Tokenize(p, rest) == [];
    assert Substitute([], p, reg) == ("", reg);
    assert out == goal.0 && reg == goal.1;
  }

  /** The text `variableDefinitions` holds after the `for` loop has handled the
      entries of `reg`: one declaration per entry, each followed by a newline. */
  function DeclBlock(reg: seq<Entry>): string
    decreases |reg|
  {
    if reg == [] then "" else DeclBlock(reg[..|reg| - 1]) + DeclLine(reg[|reg| - 1]) + "\n"
  }

  /** The accumulated block is the joined declarations plus one final newline. */
  lemma {:induction false} DeclBlockJoin(reg: seq<Entry>)
    requires reg != []
    ensures DeclBlock(reg) == Declarations(reg) + "\n"
    decreases |reg|
  {
    var n := |reg| - 1;
    var init := reg[..n];
    var line := DeclLine(reg[n]);
    DeclLinesSnoc(reg);
    assert DeclBlock(reg) == DeclBlock(init) + line + "\n";
    if init == [] {
      assert DeclLines(reg) == [line];
      assert Declarations(reg) == line;
    } else {
      DeclBlockJoin(init);
      JoinSnoc(DeclLines(init), line, "\n");
    }
  }

  /** The declaration lines of a registry are those of all but its last
      entry, then the last entry's line. */
  lemma DeclLinesSnoc(reg: seq<Entry>)
    requires reg != []
    ensures DeclLines(reg) == DeclLines(reg[..|reg| - 1]) + [DeclLine(reg[|reg| - 1])]
  {
  }

  /** Declarations start with the `-` of the first line and end with the
      closing backquote of the last. */
  lemma {:induction false} DeclarationsEnds(reg: seq<Entry>)
    requires reg != []
    ensures Declarations(reg) != []
    ensures Declarations(reg)[0] == '-' && Declarations(reg)[|Declarations(reg)| - 1] == '`'
    decreases |reg|
  {
    var n := |reg| - 1;
    var init := reg[..n];
    var line := DeclLine(reg[n]);
    DeclLinesSnoc(reg);
    if init == [] {
      assert DeclLines(reg) == [line];
      assert Declarations(reg) == line;
    } else {
      DeclarationsEnds(init);
      JoinSnoc(DeclLines(init), line, "\n");
      assert Declarations(reg) == Declarations(init) + "\n" + line;
    }
  }

  /** `variableDefinitions.trim()` removes exactly the newline after the last
      declaration. */
  lemma DeclBlockTrim(reg: seq<Entry>)
    ensures Trim(DeclBlock(reg)) == Declarations(reg)
  {
    if reg == [] {
      assert Declarations(reg) == "";
    } else {
      var x := Declarations(reg);
      DeclBlockJoin(reg);
      DeclarationsEnds(reg);
      TrimOneTrailing(x, '\n');
      assert DeclBlock(reg) == x + ['\n'];
    }
  }

  /** The `for ... of Object.entries(variableMap)` loop and the `trim()`. */
  method RenderDeclarations(reg: seq<Entry>) returns (d: string)
    ensures d == Declarations(reg)
  {
    var defs := "";
    for k := 0 to |reg|
      invariant defs == DeclBlock(reg[..k])
    {
      assert reg[..k + 1][..k] == reg[..k];
      defs := defs + DeclLine(reg[k]) + "\n";
    }
    assert reg[..|reg|] == reg;
    DeclBlockTrim(reg);
    d := Trim(defs);
  }

  /** `extractVariables`: counter at 1, empty registry, the curly pass and the
      square pass when their options are set, and the declarations. */
  method ExtractVariables(s: string, o: Options) returns (res: Extracted)
    ensures res == Extract(s, o)
  {
    var count: nat := 1;
    var reg: seq<Entry> := [];
    var s1 := s;
    if o.curlyVariables {
      s1, count, reg := ReplaceFragments(Curly, s, count, reg);
    }
    var s2 := s1;
    if o.squareVariables {
      s2, count, reg := ReplaceFragments(Square, s1, count, reg);
    }
    var variables := RenderDeclarations(reg);
    res := Extracted(variables, s2);
  }
}
