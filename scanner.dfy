/** The three regular expressions of the component, written as hand-written
    matchers, and the left-to-right, non-overlapping scan that
    `String.prototype.replace` performs with a global regex.

    A scan cuts the text into pieces: a `Drop` is one match, a `Keep` is a
    character at which no match starts. The scan never looks at replacement
    text, because replacements are made from the pieces afterwards. */
module Scanner {
  import opened Wrappers
  import opened Text
  import opened Seqs

  /** The patterns scanned for. */
  datatype Pattern =
    | StrongTag  // /\n\s*strong/g
    | Curly      // /\{\{[^\{\}]{1,30}\}\}/g
    | Square     // /\[[^\[\]]{1,40}\]/g

  /** The character classes repeated inside the patterns. */
  datatype CharClass = Space | NotBrace | NotBracket

  predicate IsBrace(c: char) { c == '{' || c == '}' }

  predicate IsBracket(c: char) { c == '[' || c == ']' }

  predicate InClass(cls: CharClass, c: char) {
    match cls
    case Space => IsJsSpace(c)
    case NotBrace => !IsBrace(c)
    case NotBracket => !IsBracket(c)
  }

  /** The first character every match of `p` starts with. */
  function Opener(p: Pattern): char {
    match p
    case StrongTag => '\n'
    case Curly => '{'
    case Square => '['
  }

  /** The end of the longest run of `cls` characters in `t` starting at `i`. */
  function RunEnd(t: string, i: nat, cls: CharClass): (j: nat)
    requires i <= |t|
    ensures i <= j <= |t|
    ensures forall k :: i <= k < j ==> InClass(cls, t[k])
    ensures j == |t| || !InClass(cls, t[j])
    decreases |t| - i
  {
    if i < |t| && InClass(cls, t[i]) then RunEnd(t, i + 1, cls) else i
  }

  /** The length of the match of `p` at the start of `t`, if there is one.
      A repeated class is followed by a character outside the class, so the
      greedy run is the only one that can succeed: no backtracking is needed. */
  function MatchAt(p: Pattern, t: string): (m: Option<nat>)
    ensures m.Some? ==> 0 < m.value <= |t| && t[0] == Opener(p)
  {
    match p
    case StrongTag =>
      if |t| >= 1 && t[0] == '\n' then
        var j := RunEnd(t, 1, Space);
        if j + 6 <= |t| && t[j..j + 6] == "strong" then Some(j + 6) else None
      else None
    case Curly =>
      if |t| >= 2 && t[0] == '{' && t[1] == '{' then
        var j := RunEnd(t, 2, NotBrace);
        if 1 <= j - 2 <= 30 && j + 2 <= |t| && t[j] == '}' && t[j + 1] == '}' then Some(j + 2) else None
      else None
    case Square =>
      if |t| >= 1 && t[0] == '[' then
        var j := RunEnd(t, 1, NotBracket);
        if 1 <= j - 1 <= 40 && j < |t| && t[j] == ']' then Some(j + 1) else None
      else None
  }

  /** Reference definition of one match of `p`, read off the regular expression. */
  predicate IsFragment(p: Pattern, seg: string) {
    match p
    case StrongTag =>
      |seg| >= 7 && seg[0] == '\n' && seg[|seg| - 6..] == "strong"
      && forall k :: 1 <= k < |seg| - 6 ==> IsJsSpace(seg[k])
    case Curly =>
      5 <= |seg| <= 34 && seg[0] == '{' && seg[1] == '{'
      && seg[|seg| - 2] == '}' && seg[|seg| - 1] == '}'
      && forall k :: 2 <= k < |seg| - 2 ==> !IsBrace(seg[k])
    case Square =>
      3 <= |seg| <= 42 && seg[0] == '[' && seg[|seg| - 1] == ']'
      && forall k :: 1 <= k < |seg| - 1 ==> !IsBracket(seg[k])
  }

  /** A match of `p` of length `n` starts `t`. */
  predicate MatchesAt(p: Pattern, t: string, n: nat) {
    0 < n <= |t| && IsFragment(p, t[..n])
  }

  /** The matcher finds exactly the matches of the reference definition. */
  lemma MatchAtCorrect(p: Pattern, t: string, n: nat)
    ensures MatchAt(p, t) == Some(n) <==> MatchesAt(p, t, n)
  {
    if MatchesAt(p, t, n) {
      var seg := t[..n];
      match p
      case StrongTag =>
        assert forall k :: 1 <= k < n - 6 ==> IsJsSpace(t[k]) by {
          forall k | 1 <= k < n - 6 ensures IsJsSpace(t[k]) { assert seg[k] == t[k]; }
        }
        assert t[n - 6] == seg[n - 6] == 's';
        RunEndAt(t, 1, Space, n - 6);
        assert t[n - 6..n] == seg[n - 6..];
      case Curly =>
        assert forall k :: 2 <= k < n - 2 ==> !IsBrace(t[k]) by {
          forall k | 2 <= k < n - 2 ensures !IsBrace(t[k]) { assert seg[k] == t[k]; }
        }
        assert t[n - 2] == seg[n - 2];
        RunEndAt(t, 2, NotBrace, n - 2);
        assert t[n - 1] == seg[n - 1];
      case Square =>
        assert forall k :: 1 <= k < n - 1 ==> !IsBracket(t[k]) by {
          forall k | 1 <= k < n - 1 ensures !IsBracket(t[k]) { assert seg[k] == t[k]; }
        }
        assert t[n - 1] == seg[n - 1];
        RunEndAt(t, 1, NotBracket, n - 1);
    }
    if MatchAt(p, t) == Some(n) {
      var seg := t[..n];
      match p
      case StrongTag =>
        assert seg[n - 6..] == t[n - 6..n];
        assert forall k :: 1 <= k < n - 6 ==> IsJsSpace(seg[k]) by {
          forall k | 1 <= k < n - 6 ensures IsJsSpace(seg[k]) { assert seg[k] == t[k]; }
        }
      case Curly =>
        assert forall k :: 2 <= k < n - 2 ==> !IsBrace(seg[k]) by {
          forall k | 2 <= k < n - 2 ensures !IsBrace(seg[k]) { assert seg[k] == t[k]; }
        }
      case Square =>
        assert forall k :: 1 <= k < n - 1 ==> !IsBracket(seg[k]) by {
          forall k | 1 <= k < n - 1 ensures !IsBracket(seg[k]) { assert seg[k] == t[k]; }
        }
    }
  }

  /** A run of `cls` characters ended by a character outside `cls` is the longest run. */
  lemma RunEndAt(t: string, i: nat, cls: CharClass, j: nat)
    requires i <= j < |t|
    requires forall k :: i <= k < j ==> InClass(cls, t[k])
    requires !InClass(cls, t[j])
    ensures RunEnd(t, i, cls) == j
  {
  }

  /** At most one match of `p` starts at any position. */
  lemma MatchesAtUnique(p: Pattern, t: string, n1: nat, n2: nat)
    requires MatchesAt(p, t, n1) && MatchesAt(p, t, n2)
    ensures n1 == n2
  {
    MatchAtCorrect(p, t, n1);
    MatchAtCorrect(p, t, n2);
  }

  /** One piece of a scanned text. */
  datatype Piece = Keep(c: char) | Drop(seg: string)

  /** The text the pieces were cut from. */
  function Flatten(ps: seq<Piece>): string {
    if ps == [] then []
    else (match ps[0] case Keep(c) => [c] case Drop(seg) => seg) + Flatten(ps[1..])
  }

  /** The kept characters, in order. */
  function Kept(ps: seq<Piece>): string {
    if ps == [] then []
    else (match ps[0] case Keep(c) => [c] case Drop(_) => []) + Kept(ps[1..])
  }

  /** The matched segments, in order. */
  function Dropped(ps: seq<Piece>): seq<string> {
    if ps == [] then []
    else (match ps[0] case Keep(_) => [] case Drop(seg) => [seg]) + Dropped(ps[1..])
  }

  /** `ps` is the leftmost, non-overlapping cut of its text by `p`: every kept
      character is a position where no match starts, and every dropped segment
      is the match starting where it stands. */
  ghost predicate Leftmost(p: Pattern, ps: seq<Piece>)
    decreases |ps|
  {
    ps == [] ||
    ((match ps[0]
      case Keep(_) => forall n: nat :: !MatchesAt(p, Flatten(ps), n)
      case Drop(seg) => MatchesAt(p, Flatten(ps), |seg|))
     && Leftmost(p, ps[1..]))
  }

  /** The scan of `s` for `p`, left to right: a match is cut out whole and the
      scan resumes after it; otherwise one character is kept. */
  function Tokenize(p: Pattern, s: string): (ps: seq<Piece>)
    ensures Flatten(ps) == s
    decreases |s|
  {
    if s == [] then []
    else match MatchAt(p, s)
      case Some(n) =>
        assert s == s[..n] + s[n..];
        [Drop(s[..n])] + Tokenize(p, s[n..])
      case None =>
        assert s == [s[0]] + s[1..];
        [Keep(s[0])] + Tokenize(p, s[1..])
  }

  /** The scan is the leftmost non-overlapping cut. */
  lemma {:induction false} TokenizeLeftmost(p: Pattern, s: string)
    ensures Leftmost(p, Tokenize(p, s))
    decreases |s|
  {
    var ps := Tokenize(p, s);
    if s != [] {
      assert ps[1..] == Tokenize(p, s[|s| - |Flatten(ps[1..])|..]);
      match MatchAt(p, s)
      case Some(n) =>
        MatchAtCorrect(p, s, n);
        TokenizeLeftmost(p, s[n..]);
      case None =>
        forall n: nat ensures !MatchesAt(p, s, n) { MatchAtCorrect(p, s, n); }
        TokenizeLeftmost(p, s[1..]);
    }
  }

  /** A text has only one leftmost non-overlapping cut. */
  lemma {:induction false} LeftmostUnique(p: Pattern, ps: seq<Piece>, qs: seq<Piece>)
    requires Flatten(ps) == Flatten(qs)
    requires Leftmost(p, ps) && Leftmost(p, qs)
    ensures ps == qs
    decreases |ps|
  {
    if ps != [] && qs != [] {
      var s := Flatten(ps);
      if ps[0].Keep? && qs[0].Keep? {
        LeftmostUnique(p, ps[1..], qs[1..]);
      } else if ps[0].Drop? && qs[0].Drop? {
        var seg, seg2 := ps[0].seg, qs[0].seg;
        MatchesAtUnique(p, s, |seg|, |seg2|);
        assert seg == s[..|seg|] == seg2;
        assert Flatten(ps[1..]) == s[|seg|..] == Flatten(qs[1..]);
        LeftmostUnique(p, ps[1..], qs[1..]);
      } else {
        assert false;
      }
    } else if ps != [] || qs != [] {
      assert false;
    }
  }

  /** The scan is characterised by the reference definition: a cut of `s` is
      the scan's exactly when it is leftmost and non-overlapping. */
  lemma TokenizeIsTheLeftmostCut(p: Pattern, s: string, ps: seq<Piece>)
    ensures (Flatten(ps) == s && Leftmost(p, ps)) <==> ps == Tokenize(p, s)
  {
    TokenizeLeftmost(p, s);
    if Flatten(ps) == s && Leftmost(p, ps) {
      LeftmostUnique(p, ps, Tokenize(p, s));
    }
  }

  /** Every segment a leftmost cut drops is a match of the pattern. */
  lemma {:induction false} DroppedAreFragments(p: Pattern, ps: seq<Piece>)
    requires Leftmost(p, ps)
    ensures forall seg :: seg in Dropped(ps) ==> IsFragment(p, seg)
    decreases |ps|
  {
    if ps != [] {
      DroppedAreFragments(p, ps[1..]);
      match ps[0]
      case Keep(_) =>
      case Drop(seg) =>
        assert Flatten(ps)[..|seg|] == seg;
    }
  }

  /** Where no match starts anywhere, the scan keeps every character. */
  lemma {:induction false} NoMatchKeepsAll(p: Pattern, s: string)
    requires forall k :: 0 <= k < |s| ==> MatchAt(p, s[k..]).None?
    ensures Dropped(Tokenize(p, s)) == []
    ensures Kept(Tokenize(p, s)) == s
    decreases |s|
  {
    if s != [] {
      assert MatchAt(p, s[0..]).None? && s[0..] == s;
      forall k | 0 <= k < |s[1..]| ensures MatchAt(p, s[1..][k..]).None? {
        assert s[1..][k..] == s[k + 1..];
      }
      NoMatchKeepsAll(p, s[1..]);
    }
  }

  /** A text without the opening character of `p` has no match of `p`. */
  lemma NoOpenerNoMatch(p: Pattern, s: string)
    requires Opener(p) !in s
    ensures forall k :: 0 <= k < |s| ==> MatchAt(p, s[k..]).None?
  {
    forall k | 0 <= k < |s| ensures MatchAt(p, s[k..]).None? {
      assert s[k..][0] == s[k];
    }
  }

  /** So the scan of such a text drops nothing and keeps all of it. */
  lemma NoOpenerKeepsAll(p: Pattern, s: string)
    requires Opener(p) !in s
    ensures Dropped(Tokenize(p, s)) == []
    ensures Kept(Tokenize(p, s)) == s
  {
    NoOpenerNoMatch(p, s);
    NoMatchKeepsAll(p, s);
  }

  // ---------------------------------------------------------------------
  // Scans of simple texts

  /** The kept pieces of a text in which no match starts. */
  function Keeps(a: string): (ps: seq<Piece>)
    ensures |ps| == |a|
  {
    seq(|a|, k requires 0 <= k < |a| => Keep(a[k]))
  }

  /** A text that starts with a match is cut there first. */
  lemma TokenizeMatchFront(p: Pattern, t: string, n: nat)
    requires MatchAt(p, t) == Some(n)
    ensures Tokenize(p, t) == [Drop(t[..n])] + Tokenize(p, t[n..])
  {
  }

  /** A text that is one match is one piece. */
  lemma TokenizeWhole(p: Pattern, t: string)
    requires MatchAt(p, t) == Some(|t|)
    ensures Tokenize(p, t) == [Drop(t)]
  {
    TokenizeMatchFront(p, t, |t|);
    assert t[..|t|] == t && t[|t|..] == [];
  }

  /** A text at whose front no match starts keeps its first character; so
      does one that does not start with the pattern's first character. */
  lemma TokenizeKeepFront(p: Pattern, t: string)
    requires t != [] && MatchAt(p, t).None?
    ensures Tokenize(p, t) == [Keep(t[0])] + Tokenize(p, t[1..])
  {
  }

  lemma KeepsCons(a: string)
    requires a != []
    ensures Keeps(a) == [Keep(a[0])] + Keeps(a[1..])
  {
  }

  lemma NotInTail(c: char, a: string)
    requires a != [] && c !in a
    ensures c !in a[1..] && a[0] != c
  {
    assert a == [a[0]] + a[1..];
  }

  /** No match starts inside a text without the pattern's first character. */
  lemma {:induction false} TokenizeKeeps(p: Pattern, a: string, b: string)
    requires Opener(p) !in a
    ensures Tokenize(p, a + b) == Keeps(a) + Tokenize(p, b)
    decreases |a|
  {
    if a == [] {
      AppendNil(b, a);
    } else {
      var t := a + b;
      NotInTail(Opener(p), a);
      TailAppend(a, b);
      assert t[0] != Opener(p);
      TokenizeKeepFront(p, t);
      TokenizeKeeps(p, a[1..], b);
      KeepsCons(a);
      Assoc([Keep(a[0])], Keeps(a[1..]), Tokenize(p, b));
    }
  }
}
