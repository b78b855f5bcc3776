/** String helpers standing in for the JavaScript library calls the component
    uses: the `\s` character class, `String.prototype.trim`, `split('\n')`,
    `join`, and the decimal rendering of a number inside a template literal. */
module Text {
  import opened Seqs

  /** JavaScript's `\s`: the ECMAScript WhiteSpace and LineTerminator code
      points. `String.prototype.trim` strips exactly the same set. */
  predicate IsJsSpace(c: char) {
    c == '\t' || c == '\n' || c == '\U{000B}' || c == '\U{000C}' || c == '\r' || c == ' '
    || c == '\U{00A0}' || c == '\U{1680}' || ('\U{2000}' <= c <= '\U{200A}')
    || c == '\U{2028}' || c == '\U{2029}' || c == '\U{202F}' || c == '\U{205F}'
    || c == '\U{3000}' || c == '\U{FEFF}'
  }

  /** Drops the leading whitespace of `s`. */
  function TrimStart(s: string): (r: string)
    ensures |r| <= |s| && r == s[|s| - |r|..]
    ensures forall k :: 0 <= k < |s| - |r| ==> IsJsSpace(s[k])
    ensures r == [] || !IsJsSpace(r[0])
  {
    if s != [] && IsJsSpace(s[0]) then TrimStart(s[1..]) else s
  }

  /** Drops the trailing whitespace of `s`. */
  function TrimEnd(s: string): (r: string)
    ensures |r| <= |s| && r == s[..|r|]
    ensures forall k :: |r| <= k < |s| ==> IsJsSpace(s[k])
    ensures r == [] || !IsJsSpace(r[|r| - 1])
  {
    if s != [] && IsJsSpace(s[|s| - 1]) then TrimEnd(s[..|s| - 1]) else s
  }

  /** `s.trim()` */
  function Trim(s: string): string {
    TrimEnd(TrimStart(s))
  }

  /** Trimming a text that starts and ends with non-space characters, followed by
      one whitespace character, removes exactly that character. */
  lemma TrimOneTrailing(x: string, c: char)
    requires x != [] && !IsJsSpace(x[0]) && !IsJsSpace(x[|x| - 1]) && IsJsSpace(c)
    ensures Trim(x + [c]) == x
  {
    var s := x + [c];
    assert TrimStart(s) == s;
    var r := TrimEnd(s);
    assert s[|x|] == c && s[|x| - 1] == x[|x| - 1];
    assert |r| == |x|;
    assert r == s[..|x|] == x;
  }

  /** `ls.join(sep)` */
  function Join(ls: seq<string>, sep: string): string
    decreases |ls|
  {
    if |ls| == 0 then ""
    else if |ls| == 1 then ls[0]
    else ls[0] + sep + Join(ls[1..], sep)
  }

  /** Joining one more line puts the separator and the line at the end. */
  lemma {:induction false} JoinSnoc(ls: seq<string>, x: string, sep: string)
    requires |ls| >= 1
    ensures Join(ls + [x], sep) == Join(ls, sep) + sep + x
    decreases |ls|
  {
    if |ls| > 1 {
      assert (ls + [x])[1..] == ls[1..] + [x];
      JoinSnoc(ls[1..], x, sep);
    }
  }

  /** `s.split('\n')`: the maximal newline-free pieces between newlines. There is
      always at least one piece; the empty text gives one empty piece. */
  function SplitLines(s: string): (ls: seq<string>)
    ensures |ls| >= 1
    ensures forall i :: 0 <= i < |ls| ==> '\n' !in ls[i]
    ensures Join(ls, "\n") == s
  {
    if s == [] then [""]
    else
      var rest := SplitLines(s[1..]);
      if s[0] == '\n' then
        assert s == "\n" + Join(rest, "\n");
        [""] + rest
      else
        var ls := [[s[0]] + rest[0]] + rest[1..];
        assert '\n' !in ls[0];
        assert Join(ls, "\n") == [s[0]] + Join(rest, "\n") by {
          if |rest| > 1 { assert ls[1..] == rest[1..]; }
        }
        ls
  }

  /** Splitting a joined list gives the list back, provided no line holds a newline. */
  lemma {:induction false} SplitJoin(ls: seq<string>)
    requires |ls| >= 1
    requires forall i :: 0 <= i < |ls| ==> '\n' !in ls[i]
    ensures SplitLines(Join(ls, "\n")) == ls
  {
    if |ls| == 1 {
      SplitPlain(ls[0]);
    } else {
      SplitJoin(ls[1..]);
      SplitPrefix(ls[0], Join(ls[1..], "\n"));
      assert ls == [ls[0]] + ls[1..];
    }
  }

  /** A line without newlines splits to itself. */
  lemma {:induction false} SplitPlain(l: string)
    requires '\n' !in l
    ensures SplitLines(l) == [l]
  {
    if l != [] {
      assert '\n' !in l[1..] by {
        forall k | 0 <= k < |l[1..]| ensures l[1..][k] != '\n' { assert l[1..][k] == l[k + 1]; }
      }
      SplitPlain(l[1..]);
      assert [l[0]] + l[1..] == l;
    }
  }

  /** A newline-free line in front of a newline becomes its own first piece. */
  lemma {:induction false} SplitPrefix(l: string, rest: string)
    requires '\n' !in l
    ensures SplitLines(l + "\n" + rest) == [l] + SplitLines(rest)
    decreases |l|
  {
    var s := l + "\n" + rest;
    if l == [] {
      assert s[1..] == rest;
    } else {
      assert '\n' !in l[1..] by {
        forall k | 0 <= k < |l[1..]| ensures l[1..][k] != '\n' { assert l[1..][k] == l[k + 1]; }
      }
      SplitPrefix(l[1..], rest);
      assert s[1..] == l[1..] + "\n" + rest;
      assert [l[0]] + l[1..] == l;
    }
  }

  /** Splitting a concatenation: the last line of `a` and the first line of `b`
      become one line, every other line stays as it is. */
  lemma {:induction false} SplitAppend(a: string, b: string)
    ensures var la, lb := SplitLines(a), SplitLines(b);
      SplitLines(a + b) == la[..|la| - 1] + [la[|la| - 1] + lb[0]] + lb[1..]
    decreases |a|
  {
    if a == [] {
      SplitAppendNil(a, b);
    } else {
      SplitAppend(a[1..], b);
      TailAppend(a, b);
      if a[0] == '\n' {
        SplitAppendBreak(a, b);
      } else {
        SplitAppendChar(a, b);
      }
    }
  }

  lemma SplitAppendNil(a: string, b: string)
    requires a == []
    ensures var la, lb := SplitLines(a), SplitLines(b);
      SplitLines(a + b) == la[..|la| - 1] + [la[|la| - 1] + lb[0]] + lb[1..]
  {
    var lb := SplitLines(b);
    assert a + b == b;
    assert "" + lb[0] == lb[0];
    assert [] + [lb[0]] + lb[1..] == lb;
  }

  lemma SplitAppendBreak(a: string, b: string)
    requires a != [] && a[0] == '\n' && (a + b)[1..] == a[1..] + b
    requires var la, lb := SplitLines(a[1..]), SplitLines(b);
      SplitLines(a[1..] + b) == la[..|la| - 1] + [la[|la| - 1] + lb[0]] + lb[1..]
    ensures var la, lb := SplitLines(a), SplitLines(b);
      SplitLines(a + b) == la[..|la| - 1] + [la[|la| - 1] + lb[0]] + lb[1..]
  {
    SplitBreak(a);
    SplitBreak(a + b);
    MergeBreak(SplitLines(a[1..]), SplitLines(b));
  }

  /** Unfolding the split at a first character that is a newline. */
  lemma SplitBreak(s: string)
    requires s != [] && s[0] == '\n'
    ensures SplitLines(s) == [""] + SplitLines(s[1..])
  {
  }

  /** An empty first line commutes with merging the last line of one split
      with the first of another. */
  lemma MergeBreak(la: seq<string>, lb: seq<string>)
    requires |la| >= 1 && |lb| >= 1
    ensures var lc := [""] + la;
      [""] + (la[..|la| - 1] + [la[|la| - 1] + lb[0]] + lb[1..])
      == lc[..|lc| - 1] + [lc[|lc| - 1] + lb[0]] + lb[1..]
  {
    var lc := [""] + la;
    assert lc[..|lc| - 1] == [""] + la[..|la| - 1];
    assert lc[|lc| - 1] == la[|la| - 1];
  }

  lemma SplitAppendChar(a: string, b: string)
    requires a != [] && a[0] != '\n' && (a + b)[1..] == a[1..] + b
    requires var la, lb := SplitLines(a[1..]), SplitLines(b);
      SplitLines(a[1..] + b) == la[..|la| - 1] + [la[|la| - 1] + lb[0]] + lb[1..]
    ensures var la, lb := SplitLines(a), SplitLines(b);
      SplitLines(a + b) == la[..|la| - 1] + [la[|la| - 1] + lb[0]] + lb[1..]
  {
    var la', lb := SplitLines(a[1..]), SplitLines(b);
    SplitCons(a);
    SplitCons(a + b);
    MergeCons([a[0]], la', lb);
  }

  /** Unfolding the split at a first character that is not a newline. */
  lemma SplitCons(s: string)
    requires s != [] && s[0] != '\n'
    ensures SplitLines(s) == [[s[0]] + SplitLines(s[1..])[0]] + SplitLines(s[1..])[1..]
  {
  }

  /** Gluing a character to the first line commutes with merging the last line
      of one split with the first of another. */
  lemma MergeCons(c: string, la: seq<string>, lb: seq<string>)
    requires |la| >= 1 && |lb| >= 1
    ensures var r := la[..|la| - 1] + [la[|la| - 1] + lb[0]] + lb[1..];
      var lc := [c + la[0]] + la[1..];
      [c + r[0]] + r[1..] == lc[..|lc| - 1] + [lc[|lc| - 1] + lb[0]] + lb[1..]
  {
    var r := la[..|la| - 1] + [la[|la| - 1] + lb[0]] + lb[1..];
    var lc := [c + la[0]] + la[1..];
    if |la| == 1 {
      assert r == [la[0] + lb[0]] + lb[1..];
      assert c + (la[0] + lb[0]) == (c + la[0]) + lb[0];
      assert lc[..|lc| - 1] == [];
    } else {
      assert r[0] == la[0];
      assert r[1..] == la[1..|la| - 1] + [la[|la| - 1] + lb[0]] + lb[1..];
      assert lc[..|lc| - 1] == [c + la[0]] + la[1..|la| - 1];
      assert lc[|lc| - 1] == la[|la| - 1];
    }
  }

  /** The character of a decimal digit. */
  function DigitChar(d: nat): (c: char)
    requires d < 10
    ensures '0' <= c <= '9'
  {
    "0123456789"[d]
  }

  /** The decimal value of a digit character. */
  function DigitValue(c: char): nat {
    if '0' <= c <= '9' then (c as int - '0' as int) as nat else 0
  }

  /** The decimal rendering of `n`, as JavaScript prints a non-negative integer. */
  function Digits(n: nat): (r: string)
    ensures |r| >= 1
    ensures forall k :: 0 <= k < |r| ==> '0' <= r[k] <= '9'
  {
    if n < 10 then [DigitChar(n)] else Digits(n / 10) + [DigitChar(n % 10)]
  }

  /** Reads a string of decimal digits back as a number. */
  function ParseDigits(s: string): nat {
    if s == [] then 0 else ParseDigits(s[..|s| - 1]) * 10 + DigitValue(s[|s| - 1])
  }

  /** Reading back the decimal rendering gives the number. */
  lemma {:induction false} DigitsRoundTrip(n: nat)
    ensures ParseDigits(Digits(n)) == n
  {
    var d := Digits(n);
    if n < 10 {
      assert d[..0] == [];
      assert DigitValue(DigitChar(n)) == n by {
        assert "0123456789"[n] as int == '0' as int + n;
      }
    } else {
      DigitsRoundTrip(n / 10);
      assert d[..|d| - 1] == Digits(n / 10);
      assert DigitValue(DigitChar(n % 10)) == n % 10 by {
        assert "0123456789"[n % 10] as int == '0' as int + n % 10;
      }
    }
  }

  /** Different numbers render differently. */
  lemma DigitsInjective(a: nat, b: nat)
    ensures Digits(a) == Digits(b) ==> a == b
  {
    DigitsRoundTrip(a);
    DigitsRoundTrip(b);
  }
}
