/** `modifyPug`: the passes the component runs over the Pug text the
    Markdown converter produced, in the fixed order strong removal, title,
    variables, imports, footer. All but the variables pass are switched by the
    preferences form; the variables pass always runs, and its two scans are
    switched. */
module Pipeline {
  import opened Text
  import opened Scanner
  import opened Registry
  import opened Preferences
  import opened Extract
  import opened Seqs

  /** `titleText`: the document head the title pass puts in front. Its last line
      is seven spaces, so the first line of the text lands after them. */
  const TitleText: string := TitleHead + "\n" + TitleTail

  /** `titleText` up to its last newline. */
  const TitleHead: string := "\ndoctype strict\nhtml\n  head\n    link(href='classpath:styles/main.css', rel='stylesheet', type='text/css', media='print')\n  body\n    .front-page\n      include HEADER-BANNER\n      .company-name=company.fullName\n      .document-type\n        | 'title PLace holder'"

  /** The spaces after the last newline of `titleText`. */
  const TitleTail: string := "       "

  /** `importsText`: the include lines the imports pass puts in front. */
  const ImportsText: string := "\ninclude includes/ROUND_VARIABLES3\ninclude utils/UTILS\n"

  /** The footer mixin call the footer pass appends. */
  const FooterText: string := "\n      +footer('2024-10-01')"

  // ---------------------------------------------------------------------
  // removeStrongTags

  /** `pug.replace(/\n\s*strong/g, '')`: every leftmost match is cut out and
      everything else is kept in order. */
  function RemoveStrongTags(s: string): string {
    Kept(Tokenize(StrongTag, s))
  }

  /** `w` occurs in `s` at position `k`. */
  predicate OccursAt(w: string, s: string, k: nat) {
    k + |w| <= |s| && s[k..k + |w|] == w
  }

  /** `w` occurs in `s`. */
  predicate Occurs(w: string, s: string) {
    exists k: nat :: k <= |s| && OccursAt(w, s, k)
  }

  /** Against the reference definition of the scan: the result is the kept
      text of the one leftmost non-overlapping cut of `s`, and every segment
      that cut removes is a newline, whitespace, then `strong`. */
  lemma RemoveStrongTagsLeftmost(s: string, ps: seq<Piece>)
    requires Flatten(ps) == s && Leftmost(StrongTag, ps)
    ensures RemoveStrongTags(s) == Kept(ps)
    ensures forall seg :: seg in Dropped(ps) ==> IsFragment(StrongTag, seg)
  {
    TokenizeIsTheLeftmostCut(StrongTag, s, ps);
    DroppedAreFragments(StrongTag, ps);
  }

  /** A text in which `strong` does not occur comes back unchanged. */
  lemma RemoveStrongTagsNoStrong(s: string)
    requires !Occurs("strong", s)
    ensures RemoveStrongTags(s) == s
  {
    forall k | 0 <= k < |s| ensures MatchAt(StrongTag, s[k..]).None? {
      var t := s[k..];
      if t[0] == '\n' {
        var j := RunEnd(t, 1, Space);
        if j + 6 <= |t| {
          SliceOfSlice(s, k, j, j + 6);
          assert !OccursAt("strong", s, k + j);
        }
      }
    }
    NoMatchKeepsAll(StrongTag, s);
  }

  /** The kept text of two scans is the kept text of each. */
  lemma {:induction false} KeptAppend(ps: seq<Piece>, qs: seq<Piece>)
    ensures Kept(ps + qs) == Kept(ps) + Kept(qs)
    decreases |ps|
  {
    if ps == [] {
      AppendNil(qs, ps);
    } else {
      TailAppend(ps, qs);
      KeptAppend(ps[1..], qs);
      var head := match ps[0] case Keep(c) => [c] case Drop(_) => [];
      assert Kept(ps + qs) == head + Kept(ps[1..] + qs);
      Assoc(head, Kept(ps[1..]), Kept(qs));
    }
  }

  /** A newline, whitespace `w` and `strong` at the front of a text are one match. */
  lemma StrongFront(w: string, rest: string)
    requires forall k :: 0 <= k < |w| ==> IsJsSpace(w[k])
    ensures Tokenize(StrongTag, "\n" + w + "strong" + rest)
      == [Drop("\n" + w + "strong")] + Tokenize(StrongTag, rest)
  {
    var t := "\n" + w + "strong" + rest;
    var n := |w| + 7;
    forall k | 1 <= k < |w| + 1 ensures InClass(Space, t[k]) {
      assert t[k] == w[k - 1];
    }
    assert t[|w| + 1] == 's';
    RunEndAt(t, 1, Space, |w| + 1);
    assert t[|w| + 1..n] == "strong";
    TokenizeMatchFront(StrongTag, t, n);
    assert t[..n] == "\n" + w + "strong";
    assert t[n..] == rest;
  }

  /** Kept text of a removed match followed by more pieces. */
  lemma KeptDrop(seg: string, qs: seq<Piece>)
    ensures Kept([Drop(seg)] + qs) == Kept(qs)
  {
    KeptAppend([Drop(seg)], qs);
  }

  /** Kept text of a kept character followed by more pieces. */
  lemma KeptKeep(c: char, qs: seq<Piece>)
    ensures Kept([Keep(c)] + qs) == [c] + Kept(qs)
  {
    KeptAppend([Keep(c)], qs);
  }

  /** A text without newlines has no match and is kept whole. */
  lemma NoNewlineKept(s: string)
    requires '\n' !in s
    ensures Kept(Tokenize(StrongTag, s)) == s
  {
    NoOpenerKeepsAll(StrongTag, s);
  }

  lemma MoreTextLiterals()
    ensures MatchAt(StrongTag, "\nmore text").None?
    ensures "\nmore text"[0] == '\n' && "\nmore text"[1..] == "more text"
    ensures '\n' !in "more text"
  {
    var t := "\nmore text";
    assert !IsJsSpace(t[1]);
    RunEndAt(t, 1, Space, 1);
    assert t[1..7] != "strong" by { assert t[1..7][0] == 'm'; }
  }

  /** Only the line break, the indentation and the tag go: the next line stays. */
  lemma RemoveStrongTagsExample()
    ensures RemoveStrongTags("\n  strong\nmore text") == "\nmore text"
  {
    var rest := "\nmore text";
    assert "\n  strong\nmore text" == "\n" + "  " + "strong" + rest;
    StrongFront("  ", rest);
    MoreTextLiterals();
    TokenizeKeepFront(StrongTag, rest);
    NoNewlineKept("more text");
    KeptDrop("\n  strong", Tokenize(StrongTag, rest));
    KeptKeep('\n', Tokenize(StrongTag, "more text"));
  }

  /** Only the tag goes, not the rest of the word. */
  lemma RemoveStrongTagsWordRest()
    ensures RemoveStrongTags("\n  strongly") == "ly"
  {
    assert "\n  strongly" == "\n" + "  " + "strong" + "ly";
    StrongFront("  ", "ly");
    NoNewlineKept("ly");
    KeptDrop("\n  strong", Tokenize(StrongTag, "ly"));
  }

  lemma TwiceLiterals()
    ensures MatchAt(StrongTag, "\ns\nstrongtrong").None?
    ensures "\ns\nstrongtrong"[0] == '\n' && "\ns\nstrongtrong"[1..] == "s\nstrongtrong"
    ensures "s\nstrongtrong"[0] == 's' && "s\nstrongtrong"[1..] == "\n" + "" + "strong" + "trong"
    ensures '\n' !in "trong"
    ensures "\n" + "" + "strong" == "\nstrong"
    ensures ['\n'] + (['s'] + "trong") == "\nstrong"
  {
    var t := "\ns\nstrongtrong";
    assert !IsJsSpace(t[1]);
    RunEndAt(t, 1, Space, 1);
    assert t[1..7] != "strong" by { assert t[1..7][1] == '\n'; }
  }

  /** The removal is not idempotent: removing a match can join a newline and
      the rest of a word into a new match, which a second removal takes out. */
  lemma RemoveStrongTagsNotIdempotent()
    ensures RemoveStrongTags("\ns\nstrongtrong") == "\nstrong"
    ensures RemoveStrongTags("\nstrong") == ""
  {
    RemoveOnceTwice();
    RemoveStrongOnly();
  }

  lemma RemoveStrongOnly()
    ensures RemoveStrongTags("\nstrong") == ""
  {
    var t := "\nstrong";
    assert !IsJsSpace(t[1]);
    RunEndAt(t, 1, Space, 1);
    assert t[1..7] == "strong";
    TokenizeWhole(StrongTag, t);
    assert Kept([Drop(t)]) == [];
  }

  lemma RemoveOnceTwice()
    ensures RemoveStrongTags("\ns\nstrongtrong") == "\nstrong"
  {
    var s := "\ns\nstrongtrong";
    var s1 := "s\nstrongtrong";
    var s2 := "\n" + "" + "strong" + "trong";
    TwiceLiterals();
    TokenizeKeepFront(StrongTag, s);
    TokenizeKeepFront(StrongTag, s1);
    StrongFront("", "trong");
    NoNewlineKept("trong");
    KeptDrop("\nstrong", Tokenize(StrongTag, "trong"));
    KeptKeep('s', Tokenize(StrongTag, s2));
    KeptKeep('\n', Tokenize(StrongTag, s1));
  }

  // ---------------------------------------------------------------------
  // indendForTitle and insertOurTitle

  /** Every line with four spaces in front. */
  function IndentAll(ls: seq<string>): (r: seq<string>)
    ensures |r| == |ls|
  {
    seq(|ls|, k requires 0 <= k < |ls| => "    " + ls[k])
  }

  /** `pug.split('\n').map(line => '    ' + line).join('\n')` */
  function IndentForTitle(s: string): string {
    Join(IndentAll(SplitLines(s)), "\n")
  }

  /** The text keeps its number of lines, and line i of the result is four
      spaces followed by line i of the text. */
  lemma IndentForTitleLines(s: string)
    ensures |SplitLines(IndentForTitle(s))| == |SplitLines(s)|
    ensures forall i :: 0 <= i < |SplitLines(s)| ==> SplitLines(IndentForTitle(s))[i] == "    " + SplitLines(s)[i]
  {
    var ls := IndentAll(SplitLines(s));
    forall i | 0 <= i < |ls| ensures '\n' !in ls[i] {
      var l := SplitLines(s)[i];
      forall k | 0 <= k < |ls[i]| ensures ls[i][k] != '\n' {
        if k >= 4 { assert ls[i][k] == l[k - 4]; }
      }
    }
    SplitJoin(ls);
  }

  /** The empty text becomes one indented empty line. */
  lemma IndentForTitleEmpty()
    ensures IndentForTitle("") == "    "
  {
    assert SplitLines("") == [""];
    var ls := IndentAll([""]);
    assert ls[0] == "    " + "";
    AppendNil("    ", "");
    assert ls == ["    "];
  }

  /** `titleText + indendForTitle(pug)` */
  function InsertOurTitle(s: string): string {
    TitleText + IndentForTitle(s)
  }

  /** The last line of the title is the seven spaces after its last newline. */
  lemma TitleLastLine()
    ensures var lt := SplitLines(TitleText); lt[|lt| - 1] == TitleTail
    ensures '\n' !in TitleTail
  {
    assert '\n' !in TitleTail;
    SplitAppend(TitleHead + "\n", TitleTail);
    SplitLastBreak(TitleHead);
    SplitPlain(TitleTail);
  }

  /** A text that ends with a newline ends with an empty line. */
  lemma SplitLastBreak(h: string)
    ensures var l := SplitLines(h + "\n"); l[|l| - 1] == ""
  {
    SplitAppend(h, "\n");
    SplitPrefix("", "");
    assert "" + "\n" + "" == "\n";
  }

  /** `lr` are the lines `lt` with the lines `ls`, indented by four, put
      behind: the lines of `lt` but its last, then the first line of `ls`
      behind the last line of `lt` and four spaces, then the other lines of
      `ls` behind four spaces. */
  predicate IndentedBehind(lr: seq<string>, lt: seq<string>, ls: seq<string>) {
    |lt| >= 1 && |ls| >= 1
    && |lr| == |lt| + |ls| - 1
    && lr[..|lt| - 1] == lt[..|lt| - 1]
    && lr[|lt| - 1] == lt[|lt| - 1] + "    " + ls[0]
    && forall i :: 1 <= i < |ls| ==> lr[|lt| - 1 + i] == "    " + ls[i]
  }

  /** The lines of a text put behind `t`, indented for the title. */
  lemma PrependIndented(t: string, s: string)
    ensures IndentedBehind(SplitLines(t + IndentForTitle(s)), SplitLines(t), SplitLines(s))
  {
    SplitAppend(t, IndentForTitle(s));
    IndentForTitleLines(s);
    MergeIndented(SplitLines(t), SplitLines(IndentForTitle(s)), SplitLines(s), SplitLines(t + IndentForTitle(s)));
  }

  /** The line arithmetic of `PrependIndented`, on the lists of lines alone. */
  lemma MergeIndented(lt: seq<string>, li: seq<string>, ls: seq<string>, lr: seq<string>)
    requires |lt| >= 1 && |li| == |ls| >= 1
    requires forall i :: 0 <= i < |ls| ==> li[i] == "    " + ls[i]
    requires lr == lt[..|lt| - 1] + [lt[|lt| - 1] + li[0]] + li[1..]
    ensures IndentedBehind(lr, lt, ls)
  {
    Assoc(lt[|lt| - 1], "    ", ls[0]);
    forall i | 1 <= i < |ls| ensures lr[|lt| - 1 + i] == "    " + ls[i] {
      assert lr[|lt| - 1 + i] == li[1..][i - 1];
    }
  }

  /** `insertOurTitle` by lines: the title's lines but its last, then the text's
      first line behind the title's seven trailing spaces and four more, then
      the text's other lines indented by four. */
  lemma InsertOurTitleLines(s: string)
    ensures IndentedBehind(SplitLines(InsertOurTitle(s)), SplitLines(TitleText), SplitLines(s))
    ensures var lt := SplitLines(TitleText); lt[|lt| - 1] == TitleTail
  {
    PrependIndented(TitleText, s);
    TitleLastLine();
  }

  // ---------------------------------------------------------------------
  // insertSetUpVariables, insertOurImports, insertFooter

  /** `extractedObj.variables + extractedObj.mypug` */
  function InsertSetUpVariables(s: string, o: Options): string {
    var e := Extract.Extract(s, o);
    e.variables + e.mypug
  }

  /** When no enabled scan matched anything, in particular when both variable
      switches are off, the text comes back unchanged. */
  lemma InsertSetUpVariablesIdentity(s: string, o: Options)
    requires CurlyValues(s, o) + SquareValues(s, o) == []
    ensures InsertSetUpVariables(s, o) == s
  {
    ExtractNothingMatched(s, o);
    AppendNil(s, "");
  }

  /** Both variable switches off leave the text as it is. */
  lemma InsertSetUpVariablesOff(s: string, o: Options)
    requires !o.curlyVariables && !o.squareVariables
    ensures InsertSetUpVariables(s, o) == s
  {
    assert CurlyValues(s, o) == [] && SquareValues(s, o) == [];
    InsertSetUpVariablesIdentity(s, o);
  }

  /** The first matched value is the first one registered. */
  lemma FirstSeenHead(vals: seq<string>)
    requires vals != []
    ensures FirstSeen(vals, []) != [] && FirstSeen(vals, [])[0] == vals[0]
  {
  }

  /** A join starts with its first line. */
  lemma JoinHead(ls: seq<string>, sep: string)
    requires ls != []
    ensures |ls[0]| <= |Join(ls, sep)| && Join(ls, sep)[..|ls[0]|] == ls[0]
  {
    if |ls| > 1 {
      SplitAt(ls[0], sep + Join(ls[1..], sep));
      Assoc(ls[0], sep, Join(ls[1..], sep));
    }
  }

  /** When something matched, the text starts with the declaration of
      `variable1`, whose value is the first value matched. */
  lemma InsertSetUpVariablesDeclares(s: string, o: Options)
    requires CurlyValues(s, o) + SquareValues(s, o) != []
    ensures var first := DeclLine(Entry(VarName(1), (CurlyValues(s, o) + SquareValues(s, o))[0]));
      var r := InsertSetUpVariables(s, o);
      |first| <= |r| && r[..|first|] == first
  {
    var all := CurlyValues(s, o) + SquareValues(s, o);
    var reg := Scan(s, o).1;
    ExtractRegistry(s, o);
    FirstSeenHead(all);
    assert Values(reg)[0] == all[0];
    ValidNames(reg);
    var first := DeclLine(reg[0]);
    assert reg[0] == Entry(VarName(1), all[0]);
    JoinHead(DeclLines(reg), "\n");
    var d := Declarations(reg);
    SplitAt(d, Scan(s, o).0);
    assert (d + Scan(s, o).0)[..|first|] == d[..|first|];
  }

  /** `this.importsText + pug` */
  function InsertOurImports(s: string): string {
    ImportsText + s
  }

  /** `pug + '\n      +footer(...)'` */
  function InsertFooter(s: string): string {
    s + FooterText
  }

  // ---------------------------------------------------------------------
  // modifyPug

  /** The five passes in their fixed order. Four are switched by their option;
      the variables pass always runs and is switched inside by its two options. */
  function Modified(s: string, o: Options): string {
    var s1 := if o.noStrong then RemoveStrongTags(s) else s;
    var s2 := if o.title then InsertOurTitle(s1) else s1;
    var s3 := InsertSetUpVariables(s2, o);
    var s4 := if o.imports then InsertOurImports(s3) else s3;
    if o.footer then InsertFooter(s4) else s4
  }

  /** `modifyPug`: reassigns the text pass by pass. */
  method ModifyPug(s: string, o: Options) returns (r: string)
    ensures r == Modified(s, o)
  {
    r := s;
    if o.noStrong {
      r := RemoveStrongTags(r);
    }
    if o.title {
      r := InsertOurTitle(r);
    }
    var extracted := ExtractVariables(r, o);
    r := extracted.variables + extracted.mypug;
    if o.imports {
      r := InsertOurImports(r);
    }
    if o.footer {
      r := InsertFooter(r);
    }
  }

  /** Every switch off: the text comes back unchanged. */
  lemma ModifyPugAllOff(s: string, o: Options)
    requires !o.noStrong && !o.title && !o.squareVariables && !o.curlyVariables && !o.imports && !o.footer
    ensures Modified(s, o) == s
  {
    InsertSetUpVariablesOff(s, o);
  }

  /** Only the imports switch on: the imports are put in front of the text. */
  lemma ModifyPugOnlyImports(s: string, o: Options)
    requires !o.noStrong && !o.title && !o.squareVariables && !o.curlyVariables && o.imports && !o.footer
    ensures Modified(s, o) == ImportsText + s
  {
    InsertSetUpVariablesOff(s, o);
  }

  /** With the imports switch on, the result starts with the imports. */
  lemma ModifyPugImports(s: string, o: Options)
    requires o.imports
    ensures var r := Modified(s, o);
      |ImportsText| <= |r| && r[..|ImportsText|] == ImportsText
  {
    var s1 := if o.noStrong then RemoveStrongTags(s) else s;
    var s2 := if o.title then InsertOurTitle(s1) else s1;
    var s3 := InsertSetUpVariables(s2, o);
    if o.footer {
      PrefixAppend(ImportsText, s3, FooterText);
    } else {
      SplitAt(ImportsText, s3);
    }
  }

  /** With the footer switch on, the result ends with the footer. */
  lemma ModifyPugFooter(s: string, o: Options)
    requires o.footer
    ensures var r := Modified(s, o);
      |FooterText| <= |r| && r[|r| - |FooterText|..] == FooterText
  {
    var s1 := if o.noStrong then RemoveStrongTags(s) else s;
    var s2 := if o.title then InsertOurTitle(s1) else s1;
    var s3 := InsertSetUpVariables(s2, o);
    var s4 := if o.imports then InsertOurImports(s3) else s3;
    SplitAt(s4, FooterText);
  }
}
