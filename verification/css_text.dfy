/** `parse`: the CSS text of the registry. Each selector, in insertion order,
    becomes `selector {property:value;...} `, its declarations in insertion
    order, with no separator other than the trailing space of each block. */
module CssText {
  import opened Wrappers
  import opened OrderedMap
  import opened Styles

  /** The texts of the items, one after another, in order. */
  function Join<T>(text: T -> string, xs: seq<T>): string
  {
    if |xs| == 0 then "" else text(xs[0]) + Join(text, xs[1..])
  }

  /** The text of a concatenation is the concatenation of the texts. */
  lemma {:induction false} JoinAppend<T>(text: T -> string, a: seq<T>, b: seq<T>)
    ensures Join(text, a + b) == Join(text, a) + Join(text, b)
  {
    if |a| == 0 {
      assert a + b == b;
    } else {
      assert (a + b)[1..] == a[1..] + b;
      JoinAppend(text, a[1..], b);
    }
  }

  /** One more item on the end adds its text on the end. */
  lemma JoinSnoc<T>(text: T -> string, xs: seq<T>, x: T)
    ensures Join(text, xs + [x]) == Join(text, xs) + text(x)
  {
    JoinAppend(text, xs, [x]);
    assert Join(text, [x]) == text(x) + Join(text, []);
  }

  /** String concatenation regroups freely. A solver hint only: the proofs
      call it to name each regrouping of `+=` they rely on. */
  lemma JoinAssoc(a: string, b: string, c: string)
    ensures a + (b + c) == (a + b) + c
  {
  }

  /** The text splits around any one item. */
  lemma JoinSplit<T>(text: T -> string, xs: seq<T>, i: nat)
    requires i < |xs|
    ensures Join(text, xs) == Join(text, xs[..i]) + text(xs[i]) + Join(text, xs[i + 1..])
  {
    assert xs == xs[..i] + xs[i..];
    JoinAppend(text, xs[..i], xs[i..]);
    assert xs[i..][1..] == xs[i + 1..];
    JoinAssoc(Join(text, xs[..i]), text(xs[i]), Join(text, xs[i + 1..]));
  }

  /** The text of one declaration, `property:value;`. */
  function DeclarationText(e: Entry<Property, Value>): string
  {
    e.key + ":" + e.value + ";"
  }

  /** The declarations of one selector, one after another. */
  function BlockText(d: Declarations): string
  {
    Join(DeclarationText, d)
  }

  /** The text of one selector's block, `selector {...} `. */
  function RuleText(e: Entry<Selector, Declarations>): string
  {
    e.key + " {" + BlockText(e.value) + "} "
  }

  /** The reference text of a registry: its blocks, in selector order. */
  function Render(s: Sheet): string
  {
    Join(RuleText, s)
  }

  /** `parse()`: walk the selectors in order, open a block for each, emit
      each of its declarations in order and close the block. */
  method Parse(s: Sheet) returns (css: string)
    ensures css == Render(s)
  {
    css := "";
    var i := 0;
    while i < |s|
      invariant 0 <= i <= |s|
      invariant css == Render(s[..i])
    {
      var sel, d := s[i].key, s[i].value;
      var done := css;
      css := css + (sel + " {");
      var j := 0;
      while j < |d|
        invariant 0 <= j <= |d|
        invariant css == done + (sel + " {" + BlockText(d[..j]))
      {
        var decl := d[j].key + ":" + d[j].value + ";";
        assert decl == DeclarationText(d[j]);
        assert d[..j + 1] == d[..j] + [d[j]];
        JoinSnoc(DeclarationText, d[..j], d[j]);
        JoinAssoc(sel + " {", BlockText(d[..j]), decl);
        JoinAssoc(done, sel + " {" + BlockText(d[..j]), decl);
        css := css + decl;
        j := j + 1;
      }
      assert d[..j] == d;
      JoinAssoc(done, sel + " {" + BlockText(d), "} ");
      css := css + "} ";
      assert s[..i + 1] == s[..i] + [s[i]];
      JoinSnoc(RuleText, s[..i], s[i]);
      i := i + 1;
    }
    assert s[..i] == s;
  }

  /** A fresh registry renders as the empty string. */
  lemma RenderInitial()
    ensures Render(Initial()) == ""
  {
  }

  /** A selector with no declarations renders as `selector {} `. */
  lemma RenderEmptyBlock(sel: Selector)
    ensures Render([Entry(sel, [])]) == sel + " {} "
  {
    var empty: Sheet := [];
    JoinSnoc(RuleText, empty, Entry(sel, []));
    assert empty + [Entry(sel, [])] == [Entry(sel, [])];
  }

  /** `add` of a new selector appends exactly its one-declaration block,
      `selector {property:value;} `, to the text. */
  lemma RenderAddNew(s: Sheet, sel: Selector, prop: Property, val: Value)
    requires sel !in Keys(s)
    ensures Render(Add(s, sel, prop, val)) == Render(s) + RuleText(Entry(sel, [Entry(prop, val)]))
    ensures RuleText(Entry(sel, [Entry(prop, val)])) == sel + " {" + (prop + ":" + val + ";") + "} "
  {
    JoinSnoc(RuleText, s, Entry(sel, [Entry(prop, val)]));
    var none: Declarations := [];
    JoinSnoc(DeclarationText, none, Entry(prop, val));
    assert none + [Entry(prop, val)] == [Entry(prop, val)];
  }

  /** After `add(sel, prop, v1)` then `add(sel, prop, v2)` on a valid
      registry, the block of `sel` holds the declaration `prop:v2;` exactly
      once: no other declaration of that block names `prop`. */
  lemma AddLastWinsText(s: Sheet, sel: Selector, prop: Property, v1: Value, v2: Value)
    requires Valid(s)
    ensures
      var r := Add(Add(s, sel, prop, v1), sel, prop, v2);
      var d := DeclarationsOf(r, sel);
      && IndexOf(d, prop).Some?
      && var k := IndexOf(d, prop).value;
      && BlockText(d) == BlockText(d[..k]) + (prop + ":" + v2 + ";") + BlockText(d[k + 1..])
      && prop !in Keys(d[..k])
      && prop !in Keys(d[k + 1..])
  {
    var d := DeclarationsOf(Add(Add(s, sel, prop, v1), sel, prop, v2), sel);
    AddLastWinsDeclarations(s, sel, prop, v1, v2);
    var k := IndexOf(d, prop).value;
    JoinSplit(DeclarationText, d, k);
    UniqueAround(d, prop, k);
  }

  /** `remove(sel)` of a present selector cuts exactly its block out of the
      text, leaving the blocks before and after it as they were. */
  lemma RenderRemoveSelector(s: Sheet, sel: Selector)
    requires sel != "" && sel in Keys(s)
    ensures
      var i := IndexOf(s, sel).value;
      && Render(s) == Render(s[..i]) + RuleText(s[i]) + Render(s[i + 1..])
      && Render(Remove(s, sel, None).value) == Render(s[..i]) + Render(s[i + 1..])
  {
    var i := IndexOf(s, sel).value;
    assert !PropertyBranch(s, sel, None);
    assert Remove(s, sel, None).value == s[..i] + s[i + 1..];
    JoinSplit(RuleText, s, i);
    JoinAppend(RuleText, s[..i], s[i + 1..]);
  }
}
