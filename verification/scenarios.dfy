/** Worked examples: concrete traces of the registry on small inputs, proved. */
module Scenarios {
  import opened Wrappers
  import opened OrderedMap
  import opened Styles
  import opened CssText

  /** Add `.a` and `.b`, remove `.a`, add `.c`: `.b` then `.c` remain, in
      that order. */
  lemma AddRemoveAdd()
    ensures
      var s1 := Add(Add(Initial(), ".a", "color", "red"), ".b", "color", "blue");
      && Remove(s1, ".a", None).Success?
      && Add(Remove(s1, ".a", None).value, ".c", "color", "green") ==
         [Entry(".b", [Entry("color", "blue")]), Entry(".c", [Entry("color", "green")])]
  {
    var s0 := Add(Initial(), ".a", "color", "red");
    assert s0 == [Entry(".a", [Entry("color", "red")])];
    assert Keys(s0)[0] == ".a";
    var s1 := Add(s0, ".b", "color", "blue");
    assert s1 == [Entry(".a", [Entry("color", "red")]), Entry(".b", [Entry("color", "blue")])];
    assert Keys(s1)[0] == ".a";
    var s2 := Remove(s1, ".a", None).value;
    assert s2 == [Entry(".b", [Entry("color", "blue")])];
    assert Keys(s2)[0] == ".b";
  }

  /** The block of a selector with one declaration, spelled out. */
  lemma OneDeclarationBlock(sel: Selector, prop: Property, val: Value)
    ensures RuleText(Entry(sel, [Entry(prop, val)])) == sel + " {" + prop + ":" + val + ";} "
  {
    RenderAddNew([], sel, prop, val);
  }

  /** A registry of two selectors renders as their two blocks in order. */
  lemma RenderTwo(a: Entry<Selector, Declarations>, b: Entry<Selector, Declarations>)
    ensures Render([a, b]) == RuleText(a) + RuleText(b)
  {
    JoinSnoc(RuleText, [], a);
    assert [] + [a] == [a];
    JoinSnoc(RuleText, [a], b);
  }

  /** The registry left by `AddRemoveAdd` renders as the `.b` block followed
      by the `.c` block. */
  lemma AddRemoveAddText()
    ensures Render([Entry(".b", [Entry("color", "blue")]), Entry(".c", [Entry("color", "green")])])
      == ".b {color:blue;} .c {color:green;} "
  {
    RenderTwo(Entry(".b", [Entry("color", "blue")]), Entry(".c", [Entry("color", "green")]));
    OneDeclarationBlock(".b", "color", "blue");
    OneDeclarationBlock(".c", "color", "green");
  }

  /** `remove(".a", "color")` when no selector is named `color` drops the
      whole of `.a`, not just its `color` declaration. */
  lemma RemovePropertyDropsSelector()
    ensures
      var s := [Entry(".a", [Entry("color", "red"), Entry("margin", "0")])];
      Remove(s, ".a", Some("color")) == Success([])
  {
    var s := [Entry(".a", [Entry("color", "red"), Entry("margin", "0")])];
    assert Keys(s)[0] == ".a";
  }

  /** `remove(".b", "color")` when a selector is named `color` but `.b` is
      absent throws. */
  lemma RemovePropertyOfMissingSelectorThrows()
    ensures
      var s: Sheet := [Entry("color", [])];
      Remove(s, ".b", Some("color")) == Failure(TypeError)
  {
    var s: Sheet := [Entry("color", [])];
    assert Keys(s)[0] == "color";
  }
}
