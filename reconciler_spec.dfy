/** The reconciler's unit scenarios, stated as facts about the model. */
module ReconcilerSpec {
  import opened Wrappers
  import opened Props
  import opened Reconciler

  /** A tag the toolkit table does not hold is refused with an error naming it. */
  lemma UnknownComponentFoo(host: Host)
    requires "foo" !in host.components
    ensures CreateInstance(host, "foo", []) == Failure(UnknownComponent("foo"))
  {
  }

  /** Text nodes are refused, here for the text "foo". */
  lemma TextInstanceFoo(host: Host)
    ensures CreateTextInstance(host, "foo") == Failure(UnsupportedTextInstance)
  {
  }

  /** `{ props: 1 }` against `{ props: 1 }` needs no update. */
  lemma EqualPropsNeedNoUpdate()
    ensures PrepareUpdate(None, None, [("props", Num(1))], [("props", Num(1))]) == None
  {
  }

  /** `{ props: 1, children: [2] }` against `{ props: 1, children: [1] }` needs no update. */
  lemma ChildrenOnlyNeedNoUpdate()
    ensures PrepareUpdate(None, None, [("props", Num(1)), ("children", Ref(2))], [("props", Num(1)), ("children", Ref(1))])
         == None
  {
  }

  /** `{ prop: 1, children: [2] }` against `{ prop: 2, children: [1] }` sets `prop` to 2 and unsets nothing. */
  lemma ChangedPropIsSet()
    ensures PrepareUpdate(None, None, [("prop", Num(1)), ("children", Ref(2))], [("prop", Num(2)), ("children", Ref(1))])
         == Some(UpdatePayload([("prop", Num(2))], []))
  {
    var oldProps: PropMap := [("prop", Num(1)), ("children", Ref(2))];
    var newProps: PropMap := [("prop", Num(2)), ("children", Ref(1))];
    assert Keys(newProps) == ["prop", "children"];
    SingleChangedProp(None, None, oldProps, newProps, "prop", Num(2));
  }

  /** `{ prop1: 1, prop2: 1 }` against `{ prop1: 1 }` unsets `prop2` and sets nothing. */
  lemma RemovedPropIsUnset()
    ensures PrepareUpdate(None, None, [("prop1", Num(1)), ("prop2", Num(1))], [("prop1", Num(1))])
         == Some(UpdatePayload([], ["prop2"]))
  {
    var oldProps: PropMap := [("prop1", Num(1)), ("prop2", Num(1))];
    var newProps: PropMap := [("prop1", Num(1))];
    assert Keys(oldProps) == ["prop1", "prop2"];
    assert Keys(newProps) == ["prop1"];
    RemovedProp(None, None, oldProps, newProps, "prop2");
  }
}
