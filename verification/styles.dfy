/** The style registry of css-inject: `styles`, an insertion-ordered map from
    selector to an insertion-ordered map from property to value, and the
    three operations that change it, `add`, `objectAdd` and `remove`. Each
    operation returns the new registry where the library returns `this`. */
module Styles {
  import opened Wrappers
  import opened OrderedMap

  type Selector = string
  type Property = string
  type Value = string

  /** The declarations of one selector, `{property: value, ...}`. */
  type Declarations = OMap<Property, Value>

  /** The registry, `{selector: {property: value, ...}, ...}`. */
  type Sheet = OMap<Selector, Declarations>

  /** Selectors are distinct, and so are the properties of each selector. */
  ghost predicate Valid(s: Sheet)
  {
    Unique(s) && forall i :: 0 <= i < |s| ==> Unique(s[i].value)
  }

  /** A fresh registry holds no selector. */
  function Initial(): (s: Sheet)
    ensures Valid(s)
    ensures Keys(s) == []
  {
    []
  }

  /** `this.styles[selector]`, with `{}` standing in for a missing selector:
      the declarations registered for `sel`, or none when it is absent. */
  function DeclarationsOf(s: Sheet, sel: Selector): (r: Declarations)
    ensures sel !in Keys(s) ==> r == []
    ensures sel in Keys(s) ==> exists i :: 0 <= i < |s| && s[i] == Entry(sel, r)
    ensures Unique(s) ==> forall i :: 0 <= i < |s| && s[i].key == sel ==> r == s[i].value
  {
    match Get(s, sel)
    case Some(d) => d
    case None => []
  }

  /** `add(selector, property, value)`: a new selector is appended with the
      single declaration `property: value`; a present selector keeps its
      place, and its declarations get `property` set in place or appended. */
  function Add(s: Sheet, sel: Selector, prop: Property, val: Value): (r: Sheet)
    ensures IndexOf(s, sel).None? ==> r == s + [Entry(sel, [Entry(prop, val)])]
    ensures IndexOf(s, sel).Some? ==>
      var i := IndexOf(s, sel).value;
      && |r| == |s|
      && (forall j :: 0 <= j < |s| && j != i ==> r[j] == s[j])
      && r[i] == Entry(sel, Put(s[i].value, prop, val))
  {
    Put(s, sel, Put(DeclarationsOf(s, sel), prop, val))
  }

  /** `add` keeps selectors distinct and each selector's properties distinct. */
  lemma AddValid(s: Sheet, sel: Selector, prop: Property, val: Value)
    requires Valid(s)
    ensures Valid(Add(s, sel, prop, val))
  {
    var d := DeclarationsOf(s, sel);
    var r := Add(s, sel, prop, val);
    PutUnique(s, sel, Put(d, prop, val));
    match IndexOf(s, sel)
    case None =>
      assert forall j :: 0 <= j < |s| ==> r[j] == s[j];
      assert r[|s|].value == [Entry(prop, val)];
    case Some(i) =>
      assert d == s[i].value;
      PutUnique(d, prop, val);
      assert forall j :: 0 <= j < |s| && j != i ==> r[j] == s[j];
      assert r[i].value == Put(d, prop, val);
  }

  /** The selector list is kept by `add` on a present selector, and gains the
      new selector at its end otherwise. */
  lemma AddKeys(s: Sheet, sel: Selector, prop: Property, val: Value)
    ensures Keys(Add(s, sel, prop, val)) ==
      if sel in Keys(s) then Keys(s) else Keys(s) + [sel]
  {
    PutKeys(s, sel, Put(DeclarationsOf(s, sel), prop, val));
  }

  /** After `add`, the selector's declarations map `prop` to `val`. */
  lemma AddGet(s: Sheet, sel: Selector, prop: Property, val: Value)
    ensures Get(DeclarationsOf(Add(s, sel, prop, val), sel), prop) == Some(val)
  {
    var d := Put(DeclarationsOf(s, sel), prop, val);
    PutGet(s, sel, d);
    PutGet(DeclarationsOf(s, sel), prop, val);
  }

  /** Two `add`s of one property under one selector leave what the second
      alone would: the last write wins and nothing is duplicated. */
  lemma AddLastWins(s: Sheet, sel: Selector, prop: Property, v1: Value, v2: Value)
    ensures Add(Add(s, sel, prop, v1), sel, prop, v2) == Add(s, sel, prop, v2)
  {
    var d := DeclarationsOf(s, sel);
    PutGet(s, sel, Put(d, prop, v1));
    PutPut(d, prop, v1, v2);
    PutPut(s, sel, Put(d, prop, v1), Put(d, prop, v2));
  }

  /** After two `add`s of one property under one selector of a valid
      registry, that selector's declarations are distinct and hold the
      property with the second value. */
  lemma AddLastWinsDeclarations(s: Sheet, sel: Selector, prop: Property, v1: Value, v2: Value)
    requires Valid(s)
    ensures
      var d := DeclarationsOf(Add(Add(s, sel, prop, v1), sel, prop, v2), sel);
      && Unique(d)
      && IndexOf(d, prop).Some?
      && d[IndexOf(d, prop).value] == Entry(prop, v2)
  {
    var r := Add(Add(s, sel, prop, v1), sel, prop, v2);
    AddLastWins(s, sel, prop, v1, v2);
    AddValid(s, sel, prop, v2);
    AddGet(s, sel, prop, v2);
    AddKeys(s, sel, prop, v2);
    var i := IndexOf(r, sel).value;
    assert DeclarationsOf(r, sel) == r[i].value;
  }

  /** Repeating an `add` changes nothing. */
  lemma AddIdempotent(s: Sheet, sel: Selector, prop: Property, val: Value)
    ensures Add(Add(s, sel, prop, val), sel, prop, val) == Add(s, sel, prop, val)
  {
    AddLastWins(s, sel, prop, val, val);
  }

  /** `delete this.styles[selector][property]` on a missing selector throws. */
  datatype Error = TypeError

  /** The guard of the property branch of `remove`. As written it looks the
      property name up among the SELECTORS, not among the selector's own
      declarations. */
  function PropertyBranch(s: Sheet, sel: Selector, prop: Option<Property>): (b: bool)
    ensures b <==> sel != "" && prop.Some? && prop.value != "" && exists i :: 0 <= i < |s| && s[i].key == prop.value
  {
    sel != "" && prop.Some? && prop.value != "" && IndexOf(s, prop.value).Some?
  }

  /** `remove(selector, property)`, guard as written: when the property name
      is also a selector, only that declaration goes (and a missing selector
      throws); otherwise a present, non-empty selector is removed whole;
      otherwise nothing changes. */
  function Remove(s: Sheet, sel: Selector, prop: Option<Property>): (r: Result<Sheet, Error>)
    ensures r.Failure? <==> PropertyBranch(s, sel, prop) && sel !in Keys(s)
    ensures PropertyBranch(s, sel, prop) && sel in Keys(s) ==>
      var i := IndexOf(s, sel).value;
      && r.Success?
      && |r.value| == |s|
      && (forall j :: 0 <= j < |s| && j != i ==> r.value[j] == s[j])
      && r.value[i] == Entry(sel, Delete(s[i].value, prop.value))
    ensures !PropertyBranch(s, sel, prop) && sel != "" && sel in Keys(s) ==>
      var i := IndexOf(s, sel).value;
      r == Success(s[..i] + s[i + 1..])
    ensures !PropertyBranch(s, sel, prop) && (sel == "" || sel !in Keys(s)) ==>
      r == Success(s)
  {
    if PropertyBranch(s, sel, prop) then
      match Get(s, sel)
      case None => Failure(TypeError)
      case Some(d) => Success(Put(s, sel, Delete(d, prop.value)))
    else if sel != "" && sel in Keys(s) then
      Success(Delete(s, sel))
    else
      Success(s)
  }

  /** `remove` keeps selectors distinct and each selector's properties distinct. */
  lemma RemoveValid(s: Sheet, sel: Selector, prop: Option<Property>)
    requires Valid(s)
    requires Remove(s, sel, prop).Success?
    ensures Valid(Remove(s, sel, prop).value)
  {
    var r := Remove(s, sel, prop).value;
    if PropertyBranch(s, sel, prop) {
      var i := IndexOf(s, sel).value;
      DeleteUnique(s[i].value, prop.value);
      assert Keys(r) == Keys(s);
    } else if sel != "" && sel in Keys(s) {
      DeleteUnique(s, sel);
      var i := IndexOf(s, sel).value;
      DeleteShift(s, sel, i);
    }
  }

  /** A property name that is not also a selector is ignored: `remove(sel, p)`
      then drops the whole selector, exactly as `remove(sel)` does. */
  lemma RemoveIgnoresProperty(s: Sheet, sel: Selector, prop: Property)
    requires prop !in Keys(s)
    ensures Remove(s, sel, Some(prop)) == Remove(s, sel, None)
  {
  }

  /** In the property branch the selector list is unchanged, the selector
      loses `prop`, and every other declaration and selector is kept. */
  lemma RemoveProperty(s: Sheet, sel: Selector, prop: Property)
    requires Valid(s)
    requires sel in Keys(s)
    requires PropertyBranch(s, sel, Some(prop))
    ensures Remove(s, sel, Some(prop)).Success?
    ensures Keys(Remove(s, sel, Some(prop)).value) == Keys(s)
    ensures Get(DeclarationsOf(Remove(s, sel, Some(prop)).value, sel), prop).None?
    ensures forall q :: q != prop ==>
      Get(DeclarationsOf(Remove(s, sel, Some(prop)).value, sel), q) ==
      Get(DeclarationsOf(s, sel), q)
    ensures forall t :: t != sel ==>
      Get(Remove(s, sel, Some(prop)).value, t) == Get(s, t)
  {
    var d := DeclarationsOf(s, sel);
    var r := Remove(s, sel, Some(prop)).value;
    assert r == Put(s, sel, Delete(d, prop));
    PutKeys(s, sel, Delete(d, prop));
    PutGet(s, sel, Delete(d, prop));
    var i := IndexOf(s, sel).value;
    assert d == s[i].value;
    DeleteUnique(d, prop);
    forall q | q != prop
      ensures Get(DeclarationsOf(r, sel), q) == Get(d, q)
    {
      DeleteGetOther(d, prop, q);
    }
    forall t | t != sel
      ensures Get(r, t) == Get(s, t)
    {
      PutGetOther(s, sel, Delete(d, prop), t);
    }
  }

  /** Removing a selector that `add` has just introduced restores the registry. */
  lemma RemoveAfterAdd(s: Sheet, sel: Selector, prop: Property, val: Value)
    requires sel != "" && sel !in Keys(s)
    ensures Remove(Add(s, sel, prop, val), sel, None) == Success(s)
  {
    AddKeys(s, sel, prop, val);
    DeleteAppended(s, sel, [Entry(prop, val)]);
  }

  /** Removing a property that `add` has just introduced under a present
      selector restores the registry, provided the property name is also a
      selector, as the guard of `remove` demands. */
  lemma RemovePropertyAfterAdd(s: Sheet, sel: Selector, prop: Property, val: Value)
    requires Valid(s)
    requires sel in Keys(s) && PropertyBranch(s, sel, Some(prop))
    requires prop !in Keys(DeclarationsOf(s, sel))
    ensures Remove(Add(s, sel, prop, val), sel, Some(prop)) == Success(s)
  {
    var d := DeclarationsOf(s, sel);
    var i := IndexOf(s, sel).value;
    var s1 := Add(s, sel, prop, val);
    AddKeys(s, sel, prop, val);
    PutGet(s, sel, Put(d, prop, val));
    assert Put(d, prop, val) == d + [Entry(prop, val)];
    DeleteAppended(d, prop, val);
    PutPut(s, sel, Put(d, prop, val), d);
    PutSame(s, sel, i);
  }

  /** One `add(selector, property, value)` call. */
  datatype Call = Call(selector: Selector, property: Property, value: Value)

  /** The argument of `objectAdd`: an object of selectors to declarations, or
      a value whose `typeof` is not "object". */
  datatype Collection = Object(rules: Sheet) | NotObject

  /** The `add` calls for one selector's declarations, in property order. */
  function RuleCalls(sel: Selector, d: Declarations): (cs: seq<Call>)
    ensures |cs| == |d|
    ensures forall j :: 0 <= j < |d| ==> cs[j] == Call(sel, d[j].key, d[j].value)
  {
    if |d| == 0 then [] else [Call(sel, d[0].key, d[0].value)] + RuleCalls(sel, d[1..])
  }

  /** The `add` calls of a collection: selector by selector, property by property. */
  function Calls(c: Sheet): seq<Call>
  {
    if |c| == 0 then [] else RuleCalls(c[0].key, c[0].value) + Calls(c[1..])
  }

  /** The calls of a concatenation are the calls of each part, in order. */
  lemma {:induction false} CallsAppend(a: Sheet, b: Sheet)
    ensures Calls(a + b) == Calls(a) + Calls(b)
  {
    if |a| == 0 {
      assert a + b == b;
    } else {
      assert (a + b)[1..] == a[1..] + b;
      CallsAppend(a[1..], b);
    }
  }

  /** The left fold of `add` over a sequence of calls. */
  function AddEach(s: Sheet, cs: seq<Call>): Sheet
    decreases cs
  {
    if |cs| == 0 then s else AddEach(Add(s, cs[0].selector, cs[0].property, cs[0].value), cs[1..])
  }

  /** Folding over a concatenation folds over each part in turn. */
  lemma {:induction false} AddEachAppend(s: Sheet, a: seq<Call>, b: seq<Call>)
    ensures AddEach(s, a + b) == AddEach(AddEach(s, a), b)
    decreases a
  {
    if |a| == 0 {
      assert a + b == b;
    } else {
      assert (a + b)[1..] == a[1..] + b;
      AddEachAppend(Add(s, a[0].selector, a[0].property, a[0].value), a[1..], b);
    }
  }

  /** One more call on the end of the fold is one more `add`. */
  lemma AddEachSnoc(s: Sheet, cs: seq<Call>, x: Call)
    ensures AddEach(s, cs + [x]) == Add(AddEach(s, cs), x.selector, x.property, x.value)
  {
    AddEachAppend(s, cs, [x]);
  }

  /** The calls for the first `j + 1` declarations of a selector. */
  lemma RuleCallsPrefix(sel: Selector, d: Declarations, j: nat)
    requires j < |d|
    ensures RuleCalls(sel, d[..j + 1]) == RuleCalls(sel, d[..j]) + [Call(sel, d[j].key, d[j].value)]
  {
  }

  /** The calls for the first `i + 1` selectors of a collection. */
  lemma CallsPrefix(c: Sheet, i: nat)
    requires i < |c|
    ensures Calls(c[..i + 1]) == Calls(c[..i]) + RuleCalls(c[i].key, c[i].value)
  {
    assert c[..i + 1] == c[..i] + [c[i]];
    CallsAppend(c[..i], [c[i]]);
    assert Calls([c[i]]) == RuleCalls(c[i].key, c[i].value) + Calls([]);
  }

  /** `objectAdd(collection)`: for each selector of an object, in order, and
      each of its properties, in order, `add` that declaration; any other
      argument is ignored without error. */
  method ObjectAdd(s: Sheet, collection: Collection) returns (r: Sheet)
    ensures collection.NotObject? ==> r == s
    ensures collection.Object? ==> r == AddEach(s, Calls(collection.rules))
  {
    r := s;
    if collection.Object? {
      var c := collection.rules;
      var i := 0;
      while i < |c|
        invariant 0 <= i <= |c|
        invariant r == AddEach(s, Calls(c[..i]))
      {
        var sel, d := c[i].key, c[i].value;
        var done := Calls(c[..i]);
        var j := 0;
        assert done + RuleCalls(sel, d[..j]) == done;
        while j < |d|
          invariant 0 <= j <= |d|
          invariant r == AddEach(s, done + RuleCalls(sel, d[..j]))
        {
          var x := Call(sel, d[j].key, d[j].value);
          RuleCallsPrefix(sel, d, j);
          assert done + RuleCalls(sel, d[..j + 1]) == (done + RuleCalls(sel, d[..j])) + [x];
          AddEachSnoc(s, done + RuleCalls(sel, d[..j]), x);
          r := Add(r, sel, d[j].key, d[j].value);
          j := j + 1;
        }
        assert d[..j] == d;
        CallsPrefix(c, i);
        i := i + 1;
      }
      assert c[..i] == c;
    }
  }

  /** Any sequence of `add` calls keeps the registry valid. */
  lemma {:induction false} AddEachValid(s: Sheet, cs: seq<Call>)
    requires Valid(s)
    ensures Valid(AddEach(s, cs))
    decreases cs
  {
    if |cs| > 0 {
      AddValid(s, cs[0].selector, cs[0].property, cs[0].value);
      AddEachValid(Add(s, cs[0].selector, cs[0].property, cs[0].value), cs[1..]);
    }
  }

  /** The entries of a collection that carry at least one declaration. */
  function NonEmpty(c: Sheet): (r: Sheet)
    ensures forall e :: e in r ==> e in c && e.value != []
    ensures forall e :: e in c && e.value != [] ==> e in r
  {
    if |c| == 0 then []
    else if c[0].value == [] then NonEmpty(c[1..])
    else [c[0]] + NonEmpty(c[1..])
  }

  /** The head of a collection is kept by `NonEmpty` exactly when it has declarations. */
  lemma NonEmptyCons(c: Sheet)
    requires |c| > 0
    ensures NonEmpty(c) == (if c[0].value == [] then [] else [c[0]]) + NonEmpty(c[1..])
  {
    if c[0].value == [] {
      assert [] + NonEmpty(c[1..]) == NonEmpty(c[1..]);
    }
  }

  /** Adding the remaining declarations of a selector that was appended last
      extends that selector's declarations in order. */
  lemma {:induction false} AddEachExtends(s: Sheet, sel: Selector, d1: Declarations, d2: Declarations)
    requires sel !in Keys(s)
    requires Unique(d1 + d2)
    ensures AddEach(s + [Entry(sel, d1)], RuleCalls(sel, d2)) == s + [Entry(sel, d1 + d2)]
    decreases d2
  {
    if |d2| == 0 {
      assert d1 + d2 == d1;
    } else {
      var m := s + [Entry(sel, d1)];
      var e := d2[0];
      assert IndexOf(s, sel).None?;
      IndexOfFirst(m, sel, |s|);
      assert (d1 + d2)[|d1|] == e;
      assert IndexOf(d1, e.key).None? by {
        forall j | 0 <= j < |d1| ensures d1[j].key != e.key {
          assert (d1 + d2)[j] == d1[j];
        }
      }
      assert DeclarationsOf(m, sel) == d1;
      assert Add(m, sel, e.key, e.value) == s + [Entry(sel, d1 + [e])];
      assert (d1 + [e]) + d2[1..] == d1 + d2;
      AddEachExtends(s, sel, d1 + [e], d2[1..]);
    }
  }

  /** The declarations of a selector new to the registry end up appended as
      one entry, unless there are none. */
  lemma AddEachRule(s: Sheet, sel: Selector, d: Declarations)
    requires sel !in Keys(s)
    requires Unique(d)
    ensures AddEach(s, RuleCalls(sel, d)) == if d == [] then s else s + [Entry(sel, d)]
  {
    if d != [] {
      assert [d[0]] + d[1..] == d;
      AddEachExtends(s, sel, [d[0]], d[1..]);
    }
  }

  /** No selector of `s` is a selector of `c`. */
  ghost predicate Disjoint(s: Sheet, c: Sheet)
  {
    forall i, j :: 0 <= i < |s| && 0 <= j < |c| ==> s[i].key != c[j].key
  }

  /** The first selector of a collection disjoint from `s` is new to `s`. */
  lemma DisjointHead(s: Sheet, c: Sheet)
    requires |c| > 0 && Disjoint(s, c)
    ensures c[0].key !in Keys(s)
  {
    assert forall i :: 0 <= i < |s| ==> Keys(s)[i] != c[0].key;
  }

  /** Moving the head of a valid collection into `s` keeps the rest disjoint. */
  lemma DisjointTail(s: Sheet, c: Sheet, s1: Sheet)
    requires |c| > 0 && Valid(c) && Disjoint(s, c)
    requires s1 == s || s1 == s + [c[0]]
    ensures Disjoint(s1, c[1..])
  {
    forall i, j | 0 <= i < |s1| && 0 <= j < |c| - 1
      ensures s1[i].key != c[1..][j].key
    {
      assert c[1..][j] == c[j + 1];
    }
  }

  /** A valid collection stays valid without its head. */
  lemma ValidTail(c: Sheet)
    requires |c| > 0 && Valid(c)
    ensures Valid(c[1..])
  {
    assert forall j :: 0 <= j < |c| - 1 ==> c[1..][j] == c[j + 1];
  }

  /** The calls for the head of a collection whose selectors are new to
      `s` append that head, unless it has no declarations. */
  lemma AddEachHead(s: Sheet, c: Sheet)
    requires |c| > 0 && Valid(c) && Disjoint(s, c)
    ensures AddEach(s, Calls(c)) ==
      AddEach(if c[0].value == [] then s else s + [c[0]], Calls(c[1..]))
  {
    var e := c[0];
    DisjointHead(s, c);
    assert Calls(c) == RuleCalls(e.key, e.value) + Calls(c[1..]);
    AddEachAppend(s, RuleCalls(e.key, e.value), Calls(c[1..]));
    AddEachRule(s, e.key, e.value);
  }

  /** `objectAdd` of a valid collection whose selectors are all new appends
      the collection's entries, except those with no declarations. */
  lemma {:induction false} AddEachFresh(s: Sheet, c: Sheet)
    requires Valid(c)
    requires Disjoint(s, c)
    ensures AddEach(s, Calls(c)) == s + NonEmpty(c)
    decreases c
  {
    if |c| > 0 {
      var e := c[0];
      AddEachHead(s, c);
      ValidTail(c);
      NonEmptyCons(c);
      if e.value == [] {
        DisjointTail(s, c, s);
        AddEachFresh(s, c[1..]);
        assert NonEmpty(c) == NonEmpty(c[1..]);
      } else {
        DisjointTail(s, c, s + [e]);
        AddEachFresh(s + [e], c[1..]);
        AppendAssoc(s, [e], NonEmpty(c[1..]));
      }
    } else {
      assert Calls(c) == [] && NonEmpty(c) == [];
      assert s + [] == s;
    }
  }

  /** Concatenation of registries regroups freely. A solver hint only: it
      names the regrouping so that the proof above need not search for it. */
  lemma AppendAssoc(a: Sheet, b: Sheet, c: Sheet)
    ensures (a + b) + c == a + (b + c)
  {
  }

  /** `objectAdd` into a fresh registry reproduces the collection, without the
      selectors that have no declarations. */
  lemma ObjectAddIntoInitial(c: Sheet)
    requires Valid(c)
    ensures AddEach(Initial(), Calls(c)) == NonEmpty(c)
  {
    AddEachFresh(Initial(), c);
  }
}
