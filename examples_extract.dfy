/** `extractVariables` on concrete shapes of input: one fragment, a repeated
    fragment, and fragments at and beyond the length bounds of the two
    patterns. */
module ExtractExamples {
  import opened Wrappers
  import opened Text
  import opened Scanner
  import opened Registry
  import opened Preferences
  import opened Extract
  import opened Seqs

  // ---------------------------------------------------------------------
  // Matching at the length bounds

  /** `[` + interior + `]` is a square match exactly when the interior has 1 to
      40 characters. */
  lemma SquareBounds(x: string, rest: string)
    requires '[' !in x && ']' !in x
    ensures MatchAt(Square, "[" + x + "]" + rest) == if 1 <= |x| <= 40 then Some(|x| + 2) else None
  {
    var t := "[" + x + "]" + rest;
    forall k | 1 <= k < |x| + 1 ensures InClass(NotBracket, t[k]) {
      assert t[k] == x[k - 1];
    }
    assert t[|x| + 1] == ']';
    RunEndAt(t, 1, NotBracket, |x| + 1);
  }

  /** `{{` + interior + `}}` is a curly match exactly when the interior has 1 to
      30 characters. */
  lemma CurlyBounds(x: string, rest: string)
    requires '{' !in x && '}' !in x
    ensures MatchAt(Curly, "{{" + x + "}}" + rest) == if 1 <= |x| <= 30 then Some(|x| + 4) else None
  {
    var t := "{{" + x + "}}" + rest;
    forall k | 2 <= k < |x| + 2 ensures InClass(NotBrace, t[k]) {
      assert t[k] == x[k - 2];
    }
    assert t[|x| + 2] == '}' && t[|x| + 3] == '}';
    RunEndAt(t, 2, NotBrace, |x| + 2);
  }

  /** A square fragment within the bounds is one match. */
  lemma SquareOneMatch(x: string)
    requires 1 <= |x| <= 40 && '[' !in x && ']' !in x
    ensures Tokenize(Square, "[" + x + "]") == [Drop("[" + x + "]")]
  {
    var s := "[" + x + "]";
    forall k | 1 <= k < |x| + 1 ensures InClass(NotBracket, s[k]) {
      assert s[k] == x[k - 1];
    }
    assert s[|x| + 1] == ']';
    RunEndAt(s, 1, NotBracket, |x| + 1);
    TokenizeWhole(Square, s);
  }

  /** A curly fragment within the bounds is one match. */
  lemma CurlyOneMatch(x: string)
    requires 1 <= |x| <= 30 && '{' !in x && '}' !in x
    ensures Tokenize(Curly, "{{" + x + "}}") == [Drop("{{" + x + "}}")]
  {
    var s := "{{" + x + "}}";
    forall k | 2 <= k < |x| + 2 ensures InClass(NotBrace, s[k]) {
      assert s[k] == x[k - 2];
    }
    assert s[|x| + 2] == '}' && s[|x| + 3] == '}';
    RunEndAt(s, 2, NotBrace, |x| + 2);
    TokenizeWhole(Curly, s);
  }

  // ---------------------------------------------------------------------
  // Passes over simple texts

  /** Unfolding a pass at a kept character. */
  lemma SubstituteKeepFront(c: char, qs: seq<Piece>, p: Pattern, reg: seq<Entry>)
    requires Valid(reg)
    ensures var rest := Substitute(qs, p, reg);
      Substitute([Keep(c)] + qs, p, reg) == ([c] + rest.0, rest.1)
  {
    var ps := [Keep(c)] + qs;
    assert ps[0] == Keep(c) && ps[1..] == qs;
  }

  /** A pass over kept characters copies them. */
  lemma {:induction false} SubstituteKeeps(a: string, qs: seq<Piece>, p: Pattern, reg: seq<Entry>)
    requires Valid(reg)
    ensures var rest := Substitute(qs, p, reg);
      Substitute(Keeps(a) + qs, p, reg) == (a + rest.0, rest.1)
    decreases |a|
  {
    if a == [] {
      SubstituteKeepsNone(a, qs, p, reg);
    } else {
      SubstituteKeeps(a[1..], qs, p, reg);
      SubstituteKeepsStep(a, qs, p, reg);
    }
  }

  lemma SubstituteKeepsNone(a: string, qs: seq<Piece>, p: Pattern, reg: seq<Entry>)
    requires Valid(reg) && a == []
    ensures var rest := Substitute(qs, p, reg);
      Substitute(Keeps(a) + qs, p, reg) == (a + rest.0, rest.1)
  {
    AppendNil(qs, Keeps(a));
    AppendNil(Substitute(qs, p, reg).0, a);
  }

  lemma SubstituteKeepsStep(a: string, qs: seq<Piece>, p: Pattern, reg: seq<Entry>)
    requires Valid(reg) && a != []
    requires var rest := Substitute(qs, p, reg);
      Substitute(Keeps(a[1..]) + qs, p, reg) == (a[1..] + rest.0, rest.1)
    ensures var rest := Substitute(qs, p, reg);
      Substitute(Keeps(a) + qs, p, reg) == (a + rest.0, rest.1)
  {
    var rest := Substitute(qs, p, reg);
    KeepsCons(a);
    Assoc([Keep(a[0])], Keeps(a[1..]), qs);
    SubstituteKeepFront(a[0], Keeps(a[1..]) + qs, p, reg);
    Assoc([a[0]], a[1..], rest.0);
    HeadTail(a);
  }

  /** A pass over a single match. */
  lemma SubstituteSingle(seg: string, p: Pattern, reg: seq<Entry>)
    requires Valid(reg)
    ensures var named := Intern(reg, Stored(p, seg));
      Substitute([Drop(seg)], p, reg) == (Placeholder(named.0), named.1)
  {
    var ps := [Drop(seg)];
    var named := Intern(reg, Stored(p, seg));
    assert ps[0] == Drop(seg);
    SubstituteDrop(ps, p, reg);
    assert ps[1..] == [];
    AppendNil(Placeholder(named.0), Substitute([], p, named.1).0);
  }

  /** A pass over a match and what follows it. */
  lemma SubstituteDropFront(seg: string, qs: seq<Piece>, p: Pattern, reg: seq<Entry>)
    requires Valid(reg)
    ensures var named := Intern(reg, Stored(p, seg));
      var rest := Substitute(qs, p, named.1);
      Substitute([Drop(seg)] + qs, p, reg) == (Placeholder(named.0) + rest.0, rest.1)
  {
    var ps := [Drop(seg)] + qs;
    assert ps[0] == Drop(seg) && ps[1..] == qs;
    SubstituteDrop(ps, p, reg);
  }

  lemma CurlyPassNoBrace(s: string, o: Options)
    requires '{' !in s
    ensures CurlyPass(s, o) == (s, [])
  {
    if o.curlyVariables {
      NoOpenerNoMatch(Curly, s);
      NoMatchKeepsAll(Curly, s);
      SubstituteNoMatch(Tokenize(Curly, s), Curly, []);
    }
  }

  lemma SquarePassNoBracket(s: string, reg: seq<Entry>, o: Options)
    requires Valid(reg) && '[' !in s
    ensures SquarePass(s, reg, o) == (s, reg)
  {
    if o.squareVariables {
      NoOpenerNoMatch(Square, s);
      NoMatchKeepsAll(Square, s);
      SubstituteNoMatch(Tokenize(Square, s), Square, reg);
    }
  }

  // ---------------------------------------------------------------------
  // Registry and declarations

  lemma VarNameOne()
    ensures VarName(1) == "variable1"
  {
    assert Digits(1) == "1";
  }

  /** The first value stored in the empty registry is named `variable1`. */
  lemma InternFirst(v: string)
    ensures Intern([], v) == ("variable1", [Entry("variable1", v)])
  {
    VarNameOne();
    assert Values([]) == [];
  }

  /** Storing the same value again reuses its name. */
  lemma InternAgain(e: Entry)
    requires Valid([e])
    ensures Intern([e], e.value) == (e.name, [e])
  {
    assert Values([e])[0] == e.value;
  }

  lemma ValidSingle(v: string)
    ensures Valid([Entry("variable1", v)])
  {
    VarNameOne();
    assert [Entry("variable1", v)][..0] == [];
    assert Values([]) == [];
  }

  /** A one-entry registry declares its entry on one line. */
  lemma DeclarationsSingle(e: Entry)
    ensures Declarations([e]) == DeclLine(e)
  {
    assert DeclLines([e]) == [DeclLine(e)];
  }

  lemma DeclarationsNone()
    ensures Declarations([]) == ""
  {
    assert DeclLines([]) == [];
  }

  /** The placeholder of the first name, which holds no `[` and no `{{`
      fragment of its own for the square scan to find. */
  lemma PlaceholderOne()
    ensures Placeholder("variable1") == "{{ variable1 }}"
    ensures '[' !in "{{ variable1 }}"
  {
  }

  lemma DeclLineFirst(v: string)
    ensures DeclLine(Entry("variable1", v)) == "- var variable1 = `" + v + "`"
  {
  }

  /** Assembling the result from the two passes. */
  lemma ExtractOf(s: string, o: Options, s1: string, reg1: seq<Entry>, s2: string, reg2: seq<Entry>)
    requires Valid(reg1)
    requires CurlyPass(s, o) == (s1, reg1) && SquarePass(s1, reg1, o) == (s2, reg2)
    ensures Extract.Extract(s, o) == Extracted(Declarations(reg2), s2)
  {
  }

  // ---------------------------------------------------------------------
  // Square fragments

  /** A square fragment with 1 to 40 interior characters becomes the
      placeholder of `variable1` and is declared verbatim. */
  lemma SquareFragment(x: string, o: Options)
    requires o.squareVariables
    requires 1 <= |x| <= 40 && '[' !in x && ']' !in x && '{' !in x
    ensures var s := "[" + x + "]";
      Extract.Extract(s, o) == Extracted("- var variable1 = `" + s + "`", "{{ variable1 }}")
  {
    var s := "[" + x + "]";
    var e := Entry("variable1", s);
    NotInBracketed('{', x);
    CurlyPassNoBrace(s, o);
    SquareOneMatch(x);
    InternFirst(s);
    SubstituteSingle(s, Square, []);
    VarNameOne();
    ValidSingle(s);
    PlaceholderOne();
    ExtractOf(s, o, s, [], "{{ variable1 }}", [e]);
    DeclarationsSingle(e);
    DeclLineFirst(s);
  }

  /** The same square fragment twice, with text between them that holds no
      `[`, gets one name and one declaration. */
  lemma SquareRepeated(x: string, sep: string, o: Options)
    requires o.squareVariables
    requires 1 <= |x| <= 40 && '[' !in x && ']' !in x && '{' !in x && '[' !in sep && '{' !in sep
    ensures var s := "[" + x + "]";
      Extract.Extract(s + sep + s, o)
        == Extracted("- var variable1 = `" + s + "`", "{{ variable1 }}" + sep + "{{ variable1 }}")
  {
    var s := "[" + x + "]";
    var t := s + sep + s;
    var e := Entry("variable1", s);
    NoBraceJoin(s, sep);
    CurlyPassNoBrace(t, o);
    SquareTwice(s, x, sep);
    ValidSingle(s);
    InternFirst(s);
    InternAgain(e);
    SquareRepeatedPass(s, sep, e);
    ExtractOf(t, o, t, [], "{{ variable1 }}" + sep + "{{ variable1 }}", [e]);
    DeclarationsSingle(e);
    DeclLineFirst(s);
  }

  lemma NotInBracketed(c: char, x: string)
    requires c !in x && c != '[' && c != ']'
    ensures c !in "[" + x + "]"
  {
  }

  lemma NotInBraced(c: char, x: string)
    requires c !in x && c != '{' && c != '}'
    ensures c !in "{{" + x + "}}"
  {
  }

  lemma NoBraceJoin(s: string, sep: string)
    requires '{' !in s && '{' !in sep
    ensures '{' !in s + sep + s
  {
  }

  /** The scan of `s + sep + s` for a square fragment `s`. */
  lemma SquareTwice(s: string, x: string, sep: string)
    requires s == "[" + x + "]"
    requires 1 <= |x| <= 40 && '[' !in x && ']' !in x && '[' !in sep
    ensures Tokenize(Square, s + sep + s) == [Drop(s)] + (Keeps(sep) + [Drop(s)])
  {
    var t := s + sep + s;
    SquareBounds(x, sep + s);
    Assoc(s, sep, s);
    TokenizeMatchFront(Square, t, |s|);
    SplitAt(s, sep + s);
    TokenizeKeeps(Square, sep, s);
    SquareOneMatch(x);
  }

  lemma SquareRepeatedPass(s: string, sep: string, e: Entry)
    requires e == Entry("variable1", s) && Valid([e])
    requires Intern([], s) == ("variable1", [e]) && Intern([e], s) == ("variable1", [e])
    ensures Substitute([Drop(s)] + (Keeps(sep) + [Drop(s)]), Square, [])
              == ("{{ variable1 }}" + sep + "{{ variable1 }}", [e])
  {
    var ph := Placeholder("variable1");
    PlaceholderOne();
    SubstituteDropFront(s, Keeps(sep) + [Drop(s)], Square, []);
    SubstituteKeeps(sep, [Drop(s)], Square, [e]);
    SubstituteSingle(s, Square, [e]);
    Assoc(ph, sep, ph);
  }

  lemma AbcLiterals()
    ensures "[" + "abc" + "]" == "[abc]"
    ensures "[abc]" + " and " + "[abc]" == "[abc] and [abc]"
    ensures "- var variable1 = `" + "[abc]" + "`" == "- var variable1 = `[abc]`"
    ensures "{{ variable1 }}" + " and " + "{{ variable1 }}" == "{{ variable1 }} and {{ variable1 }}"
  {
  }

  /** `[abc] and [abc]` with square variables on. */
  lemma SquareExample(o: Options)
    requires o.squareVariables
    ensures Extract.Extract("[abc] and [abc]", o)
              == Extracted("- var variable1 = `[abc]`", "{{ variable1 }} and {{ variable1 }}")
  {
    SquareRepeated("abc", " and ", o);
    AbcLiterals();
  }

  /** A square fragment with an empty interior, or one longer than 40
      characters, is not a match: the text passes through unchanged. */
  lemma SquareOutOfBounds(x: string, o: Options)
    requires (|x| == 0 || |x| > 40) && '[' !in x && ']' !in x && '{' !in x
    ensures var s := "[" + x + "]";
      Extract.Extract(s, o) == Extracted("", s)
  {
    var s := "[" + x + "]";
    NotInBracketed('{', x);
    CurlyPassNoBrace(s, o);
    if o.squareVariables {
      SquareBounds(x, []);
      AppendNil(s, []);
      forall k | 0 <= k < |s| ensures MatchAt(Square, s[k..]).None? {
        if k > 0 {
          assert s[k..][0] == s[k];
          assert s[k] != '[' by {
            if k <= |x| { assert s[k] == x[k - 1]; }
          }
        }
      }
      NoMatchKeepsAll(Square, s);
      SubstituteNoMatch(Tokenize(Square, s), Square, []);
    }
    ExtractOf(s, o, s, [], s, []);
    DeclarationsNone();
  }

  // ---------------------------------------------------------------------
  // Curly fragments

  /** A text without braces is left alone by the parenthesizing. */
  lemma ParenthesizeFragment(x: string)
    requires '{' !in x && '}' !in x
    ensures Parenthesize("{{" + x + "}}") == "((" + x + "))"
  {
    var s := "{{" + x + "}}";
    var r := "((" + x + "))";
    forall k | 0 <= k < |s| ensures Parenthesize(s)[k] == r[k] {
      if 2 <= k < |x| + 2 {
        assert s[k] == x[k - 2] && r[k] == x[k - 2];
      }
    }
  }

  /** A curly fragment with 1 to 30 interior characters becomes the placeholder
      of `variable1` and is declared with its braces turned into parentheses. */
  lemma CurlyFragment(x: string, o: Options)
    requires o.curlyVariables
    requires 1 <= |x| <= 30 && '{' !in x && '}' !in x
    ensures var s := "{{" + x + "}}";
      Extract.Extract(s, o) == Extracted("- var variable1 = `((" + x + "))`", "{{ variable1 }}")
  {
    var s := "{{" + x + "}}";
    var v := "((" + x + "))";
    var e := Entry("variable1", v);
    CurlyOneMatch(x);
    ParenthesizeFragment(x);
    InternFirst(v);
    SubstituteSingle(s, Curly, []);
    ValidSingle(v);
    PlaceholderOne();
    SquarePassNoBracket("{{ variable1 }}", [e], o);
    ExtractOf(s, o, "{{ variable1 }}", [e], "{{ variable1 }}", [e]);
    DeclarationsSingle(e);
    DeclLineCurly(x);
  }

  lemma DeclLineCurly(x: string)
    ensures DeclLine(Entry("variable1", "((" + x + "))")) == "- var variable1 = `((" + x + "))`"
  {
  }

  lemma HelloLiterals()
    ensures "{{" + "hello" + "}}" == "{{hello}}"
    ensures "- var variable1 = `((" + "hello" + "))`" == "- var variable1 = `((hello))`"
  {
  }

  /** `{{hello}}` with curly variables on. */
  lemma CurlyExample(o: Options)
    requires o.curlyVariables
    ensures Extract.Extract("{{hello}}", o) == Extracted("- var variable1 = `((hello))`", "{{ variable1 }}")
  {
    CurlyFragment("hello", o);
    HelloLiterals();
  }

  /** A curly fragment with an empty interior, or one longer than 30
      characters, is not a match: the text passes through unchanged. */
  lemma CurlyOutOfBounds(x: string, o: Options)
    requires (|x| == 0 || |x| > 30) && '{' !in x && '}' !in x && '[' !in x
    ensures var s := "{{" + x + "}}";
      Extract.Extract(s, o) == Extracted("", s)
  {
    var s := "{{" + x + "}}";
    if o.curlyVariables {
      CurlyBounds(x, []);
      AppendNil(s, []);
      forall k | 0 <= k < |s| ensures MatchAt(Curly, s[k..]).None? {
        if k == 1 {
          assert s[1..][1] == s[2];
          assert s[2] != '{' by { if |x| > 0 { assert s[2] == x[0]; } }
        } else if k > 1 {
          assert s[k..][0] == s[k];
          assert s[k] != '{' by {
            if k < |x| + 2 { assert s[k] == x[k - 2]; }
          }
        }
      }
      NoMatchKeepsAll(Curly, s);
      SubstituteNoMatch(Tokenize(Curly, s), Curly, []);
    }
    NotInBraced('[', x);
    SquarePassNoBracket(s, [], o);
    ExtractOf(s, o, s, [], s, []);
    DeclarationsNone();
  }
}
