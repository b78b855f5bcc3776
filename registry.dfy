/** The variable registry of `extractVariables`: the insertion-ordered object
    `variableMap` from generated names to stored fragment values, searched by
    value with `findKeyByValue`. It is modelled as the sequence of its entries
    in insertion order, which is the order `Object.entries` lists them in
    (the keys `variable1`, `variable2`, ... are not integer-like). */
module Registry {
  import opened Wrappers
  import opened Text

  /** One key/value pair of the registry. */
  datatype Entry = Entry(name: string, value: string)

  /** The generated name `variable${n}`. */
  function VarName(n: nat): string {
    "variable" + Digits(n)
  }

  /** Different counters give different names. */
  lemma VarNameInjective(a: nat, b: nat)
    ensures VarName(a) == VarName(b) ==> a == b
  {
    if VarName(a) == VarName(b) {
      assert VarName(a)[8..] == Digits(a);
      assert VarName(b)[8..] == Digits(b);
      DigitsInjective(a, b);
    }
  }

  /** The stored values, in insertion order. */
  function Values(reg: seq<Entry>): (vs: seq<string>)
    ensures |vs| == |reg|
  {
    seq(|reg|, k requires 0 <= k < |reg| => reg[k].value)
  }

  /** The registry invariant, entry by entry: the entry added n-th (from 1) is
      named `variable${n}` and holds a value no earlier entry holds. */
  ghost predicate Valid(reg: seq<Entry>)
    decreases |reg|
  {
    reg == [] ||
    var n := |reg| - 1;
    Valid(reg[..n]) && reg[n].name == VarName(n + 1) && reg[n].value !in Values(reg[..n])
  }

  /** In a valid registry the names are `variable1`, `variable2`, ... in order,
      with no gaps. */
  lemma {:induction false} ValidNames(reg: seq<Entry>)
    requires Valid(reg)
    ensures forall k :: 0 <= k < |reg| ==> reg[k].name == VarName(k + 1)
    decreases |reg|
  {
    if reg != [] {
      var n := |reg| - 1;
      ValidNames(reg[..n]);
      forall k | 0 <= k < n ensures reg[k].name == VarName(k + 1) {
        assert reg[k] == reg[..n][k];
      }
    }
  }

  /** In a valid registry no value is stored twice. */
  lemma {:induction false} ValidDistinct(reg: seq<Entry>)
    requires Valid(reg)
    ensures forall j, k :: 0 <= j < k < |reg| ==> reg[j].value != reg[k].value
    decreases |reg|
  {
    if reg != [] {
      var n := |reg| - 1;
      var init := reg[..n];
      ValidDistinct(init);
      forall j, k | 0 <= j < k < |reg| ensures reg[j].value != reg[k].value {
        assert reg[j] == init[j] by { assert j < n; }
        if k < n {
          assert reg[k] == init[k];
        } else {
          assert Values(init)[j] == reg[j].value;
        }
      }
    }
  }

  /** The position of the first entry holding `value`. */
  function IndexOf(reg: seq<Entry>, value: string): (r: Option<nat>)
    ensures r.None? <==> value !in Values(reg)
    ensures r.Some? ==> r.value < |reg| && reg[r.value].value == value
    ensures r.Some? ==> forall j :: 0 <= j < r.value ==> reg[j].value != value
  {
    if reg == [] then None
    else if reg[0].value == value then
      assert Values(reg)[0] == value;
      Some(0)
    else match IndexOf(reg[1..], value)
      case None =>
        assert Values(reg) == [reg[0].value] + Values(reg[1..]);
        None
      case Some(k) =>
        assert Values(reg)[k + 1] == value;
        Some(k + 1)
  }

  /** The key of the first entry holding `value`, as `findKeyByValue` answers
      (its `false` is `None`). */
  function KeyOf(reg: seq<Entry>, value: string): (r: Option<string>)
    ensures r.Some? <==> value in Values(reg)
  {
    match IndexOf(reg, value)
    case None => None
    case Some(k) => Some(reg[k].name)
  }

  /** `findKeyByValue`: a linear search in insertion order that returns as soon
      as an entry holds `value`. */
  method FindKeyByValue(reg: seq<Entry>, value: string) returns (r: Option<string>)
    ensures r.None? <==> value !in Values(reg)
    ensures r.Some? ==> exists k :: 0 <= k < |reg| && reg[k].value == value && r.value == reg[k].name
                                    && forall j :: 0 <= j < k ==> reg[j].value != value
    ensures r == KeyOf(reg, value)
  {
    for k := 0 to |reg|
      invariant forall j :: 0 <= j < k ==> reg[j].value != value
    {
      if reg[k].value == value {
        assert Values(reg)[k] == value;
        return Some(reg[k].name);
      }
    }
    return None;
  }

  /** `obj[name] = value` on an insertion-ordered object: an existing key keeps
      its place and takes the new value; a new key goes last. */
  function Put(reg: seq<Entry>, name: string, value: string): (r: seq<Entry>)
    ensures (forall k :: 0 <= k < |reg| ==> reg[k].name != name) ==> r == reg + [Entry(name, value)]
    ensures (exists k :: 0 <= k < |reg| && reg[k].name == name) ==>
              |r| == |reg| && (forall k :: 0 <= k < |reg| ==> r[k].name == reg[k].name)
              && Entry(name, value) in r
  {
    if reg == [] then [Entry(name, value)]
    else if reg[0].name == name then [Entry(name, value)] + reg[1..]
    else
      var r := [reg[0]] + Put(reg[1..], name, value);
      assert (exists k :: 0 <= k < |reg| && reg[k].name == name) ==>
               (exists k :: 0 <= k < |reg[1..]| && reg[1..][k].name == name) by {
        forall k | 0 <= k < |reg| && reg[k].name == name
          ensures exists k :: 0 <= k < |reg[1..]| && reg[1..][k].name == name
        {
          assert k != 0;
          assert reg[1..][k - 1].name == name;
        }
      }
      r
  }

  /** One replace callback: reuse the key of an entry already holding `value`,
      or store `value` under the next name `variable${variableCount}`, where
      `variableCount` is one more than the number of entries. */
  function Intern(reg: seq<Entry>, value: string): (res: (string, seq<Entry>))
    requires Valid(reg)
    ensures Valid(res.1)
    ensures res.1 == if value in Values(reg) then reg else reg + [Entry(VarName(|reg| + 1), value)]
    ensures KeyOf(res.1, value) == Some(res.0)
  {
    match KeyOf(reg, value)
    case Some(key) => (key, reg)
    case None =>
      var name := VarName(|reg| + 1);
      ValidNames(reg);
      forall k | 0 <= k < |reg| ensures reg[k].name != name {
        VarNameInjective(k + 1, |reg| + 1);
      }
      var reg' := Put(reg, name, value);
      assert reg' == reg + [Entry(name, value)];
      assert reg'[..|reg|] == reg;
      assert Values(reg') == Values(reg) + [value];
      IndexOfAppended(reg, Entry(name, value));
      (name, reg')
  }

  /** A value stored nowhere yet is found at the entry appended for it. */
  lemma {:induction false} IndexOfAppended(reg: seq<Entry>, e: Entry)
    requires e.value !in Values(reg)
    ensures IndexOf(reg + [e], e.value) == Some(|reg|)
  {
    if reg != [] {
      assert Values(reg)[0] == reg[0].value;
      assert e.value !in Values(reg[1..]) by {
        forall k | 0 <= k < |reg| - 1 ensures Values(reg[1..])[k] != e.value {
          assert Values(reg)[k + 1] == reg[k + 1].value;
        }
      }
      IndexOfAppended(reg[1..], e);
      assert (reg + [e])[1..] == reg[1..] + [e];
    }
  }

  /** The registry after one callback per value of `vals`, in order. */
  function InternAll(reg: seq<Entry>, vals: seq<string>): (r: seq<Entry>)
    requires Valid(reg)
    ensures Valid(r)
    ensures |reg| <= |r| && r[..|reg|] == reg
    decreases |vals|
  {
    if vals == [] then reg else InternAll(Intern(reg, vals[0]).1, vals[1..])
  }

  /** Reference for deduplication in first-encounter order: the values of
      `vals` that are not in `seen`, each one at its first occurrence. */
  function FirstSeen(vals: seq<string>, seen: seq<string>): seq<string>
    decreases |vals|
  {
    if vals == [] then []
    else if vals[0] in seen then FirstSeen(vals[1..], seen)
    else [vals[0]] + FirstSeen(vals[1..], seen + [vals[0]])
  }

  /** The callbacks add exactly the values not stored yet, once each, in the
      order they are first met. */
  lemma {:induction false} InternAllValues(reg: seq<Entry>, vals: seq<string>)
    requires Valid(reg)
    ensures Values(InternAll(reg, vals)) == Values(reg) + FirstSeen(vals, Values(reg))
    decreases |vals|
  {
    if vals != [] {
      var v := vals[0];
      var reg' := Intern(reg, v).1;
      InternValues(reg, v);
      InternAllValues(reg', vals[1..]);
    }
  }

  /** One callback adds the value if, and only if, it was not stored yet. */
  lemma InternValues(reg: seq<Entry>, v: string)
    requires Valid(reg)
    ensures Values(Intern(reg, v).1) == Values(reg) + (if v in Values(reg) then [] else [v])
  {
    if v !in Values(reg) {
      assert Values(Intern(reg, v).1) == Values(reg) + [v];
    }
  }

  /** The first-seen values are exactly the values of `vals` not seen before. */
  lemma {:induction false} FirstSeenMembers(vals: seq<string>, seen: seq<string>)
    ensures forall v :: v in FirstSeen(vals, seen) <==> v in vals && v !in seen
    decreases |vals|
  {
    if vals != [] {
      var v := vals[0];
      if v in seen {
        FirstSeenMembers(vals[1..], seen);
      } else {
        FirstSeenMembers(vals[1..], seen + [v]);
      }
      assert vals == [v] + vals[1..];
    }
  }

  /** Deduplication: no value is listed twice among the first-seen values. */
  lemma {:induction false} FirstSeenDistinct(vals: seq<string>, seen: seq<string>)
    ensures forall j, k :: 0 <= j < k < |FirstSeen(vals, seen)| ==> FirstSeen(vals, seen)[j] != FirstSeen(vals, seen)[k]
    decreases |vals|
  {
    if vals != [] {
      var v := vals[0];
      if v in seen {
        FirstSeenDistinct(vals[1..], seen);
      } else {
        var rest := FirstSeen(vals[1..], seen + [v]);
        FirstSeenDistinct(vals[1..], seen + [v]);
        FirstSeenMembers(vals[1..], seen + [v]);
        assert v !in rest;
        var r := [v] + rest;
        assert FirstSeen(vals, seen) == r;
        forall j, k | 0 <= j < k < |r| ensures r[j] != r[k] {
          if j == 0 {
            assert r[k] == rest[k - 1];
          } else {
            assert r[j] == rest[j - 1] && r[k] == rest[k - 1];
          }
        }
      }
    }
  }

  /** Deduplicating a concatenation deduplicates the first part, then the new
      values of the second part. */
  lemma {:induction false} FirstSeenAppend(a: seq<string>, b: seq<string>, seen: seq<string>)
    ensures FirstSeen(a + b, seen) == FirstSeen(a, seen) + FirstSeen(b, seen + FirstSeen(a, seen))
    decreases |a|
  {
    if a == [] {
      assert a + b == b;
      assert seen + [] == seen;
    } else {
      var v := a[0];
      assert (a + b)[0] == v;
      assert (a + b)[1..] == a[1..] + b;
      if v in seen {
        assert FirstSeen(a + b, seen) == FirstSeen(a[1..] + b, seen);
        assert FirstSeen(a, seen) == FirstSeen(a[1..], seen);
        FirstSeenAppend(a[1..], b, seen);
      } else {
        var seen' := seen + [v];
        assert FirstSeen(a + b, seen) == [v] + FirstSeen(a[1..] + b, seen');
        assert FirstSeen(a, seen) == [v] + FirstSeen(a[1..], seen');
        FirstSeenAppend(a[1..], b, seen');
        assert seen' + FirstSeen(a[1..], seen') == seen + FirstSeen(a, seen);
      }
    }
  }

  /** Only which values have been seen matters, not how the list is arranged. */
  lemma {:induction false} FirstSeenSeenSet(vals: seq<string>, s1: seq<string>, s2: seq<string>)
    requires forall v :: v in s1 <==> v in s2
    ensures FirstSeen(vals, s1) == FirstSeen(vals, s2)
    decreases |vals|
  {
    if vals != [] {
      if vals[0] in s1 {
        FirstSeenSeenSet(vals[1..], s1, s2);
      } else {
        FirstSeenSeenSet(vals[1..], s1 + [vals[0]], s2 + [vals[0]]);
      }
    }
  }

  /** Once a value is stored, a registry that grows by appending entries keeps
      its key. */
  lemma KeyOfStable(r1: seq<Entry>, r2: seq<Entry>, value: string)
    requires |r1| <= |r2| && r2[..|r1|] == r1
    requires value in Values(r1)
    ensures KeyOf(r2, value) == KeyOf(r1, value)
  {
    assert r2 == r1 + r2[|r1|..];
    IndexOfStable(r1, r2[|r1|..], value);
  }

  lemma {:induction false} IndexOfStable(reg: seq<Entry>, ext: seq<Entry>, value: string)
    requires value in Values(reg)
    ensures IndexOf(reg + ext, value) == IndexOf(reg, value)
  {
    assert reg != [];
    if reg[0].value != value {
      assert Values(reg) == [reg[0].value] + Values(reg[1..]);
      IndexOfStable(reg[1..], ext, value);
      assert (reg + ext)[1..] == reg[1..] + ext;
    }
  }
}
