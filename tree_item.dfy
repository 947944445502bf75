/**
 * The rule ContentViewTreeItemStructure: a TreeItem element passes when it
 * has the content-view tree-item structure and is given a Note otherwise.
 */
module ContentViewTreeItem {
  import opened Wrappers
  import opened Rules

  /**
   * The two conditions of the library this rule is built from, defined
   * elsewhere: ContentView.TreeItemStructure and ControlType.TreeItem.
   */
  datatype ConditionLibrary = ConditionLibrary(treeItemStructure: Condition, treeItem: Condition)

  /** The metadata the rule's constructor assigns. */
  function Info(lib: ConditionLibrary): (r: RuleInfo)
    ensures r.id == ContentViewTreeItemStructure
    ensures r.description.template == DescriptionsStructure
    ensures r.howToFix.template == HowToFixStructure
    ensures r.description.args == r.howToFix.args == [lib.treeItemStructure.text]
    ensures r.standard == InfoAndRelationships
  {
    RuleInfo(
      ContentViewTreeItemStructure,
      Format(DescriptionsStructure, [lib.treeItemStructure.text]),
      Format(HowToFixStructure, [lib.treeItemStructure.text]),
      InfoAndRelationships)
  }

  /** Evaluates the rule on a possibly-null element. */
  function Evaluate(lib: ConditionLibrary, e: Option<Element>): (r: Result<EvaluationCode, Exception>)
    ensures r.Failure? <==> e == None
    ensures r.Failure? ==> r.error == ArgumentException("e")
    ensures r.Success? ==> (r.value == Pass <==> lib.treeItemStructure.matches(e.value))
    ensures r.Success? ==> (r.value == Note <==> !lib.treeItemStructure.matches(e.value))
  {
    match e
    case None => Failure(ArgumentException("e"))
    case Some(x) => Success(if lib.treeItemStructure.matches(x) then Pass else Note)
  }

  /** The applicability condition: the element is a TreeItem control. */
  function CreateCondition(lib: ConditionLibrary): (c: Condition)
    ensures c.text == lib.treeItem.text
    ensures forall e :: c.matches(e) <==> lib.treeItem.matches(e)
  {
    lib.treeItem
  }

  /** The rule as registered: metadata, applicability and evaluation. */
  function Create(lib: ConditionLibrary): (rule: Rule)
    ensures rule.info == Info(lib)
    ensures forall e :: rule.condition.matches(e) <==> lib.treeItem.matches(e)
    ensures forall e :: rule.evaluate(e) == Evaluate(lib, e)
  {
    Rule(Info(lib), CreateCondition(lib), e => Evaluate(lib, e))
  }

  /** The rule passes an element exactly when it has the tree-item structure. */
  lemma PassIff(lib: ConditionLibrary, e: Element)
    ensures Create(lib).evaluate(Some(e)) == Success(Pass) <==> lib.treeItemStructure.matches(e)
  {
  }

  /** Any element without the tree-item structure is given a Note. */
  lemma NoteOtherwise(lib: ConditionLibrary, e: Element)
    ensures !lib.treeItemStructure.matches(e) ==> Create(lib).evaluate(Some(e)) == Success(Note)
  {
  }

  /** The rule gives no code but Pass or Note, and never throws on a non-null element. */
  lemma OnlyPassOrNote(lib: ConditionLibrary, e: Element)
    ensures Create(lib).evaluate(Some(e)).Success?
    ensures Create(lib).evaluate(Some(e)).value in {Pass, Note}
  {
  }

  /** A null element is rejected with an argument exception and no code. */
  lemma NullRejected(lib: ConditionLibrary)
    ensures Create(lib).evaluate(None) == Failure(ArgumentException("e"))
  {
  }

  /** The rule applies to an element exactly when it is a TreeItem. */
  lemma AppliesIff(lib: ConditionLibrary, e: Element)
    ensures Create(lib).condition.matches(e) <==> lib.treeItem.matches(e)
  {
  }

  /**
   * The code depends on nothing but whether the structure condition holds:
   * not on the element otherwise, and not on the applicability condition.
   * In particular the same element always gets the same code.
   */
  lemma DependsOnlyOnStructure(lib1: ConditionLibrary, lib2: ConditionLibrary, e1: Element, e2: Element)
    requires lib1.treeItemStructure.matches(e1) == lib2.treeItemStructure.matches(e2)
    ensures Create(lib1).evaluate(Some(e1)) == Create(lib2).evaluate(Some(e2))
  {
  }

  /**
   * Over all elements, the rule's codes are Pass and Note only; Pass occurs
   * iff some element has the structure and Note iff some element lacks it.
   */
  lemma OutcomesOf(lib: ConditionLibrary)
    ensures Outcomes(Create(lib)) <= iset{Pass, Note}
    ensures Pass in Outcomes(Create(lib)) <==> exists e :: lib.treeItemStructure.matches(e)
    ensures Note in Outcomes(Create(lib)) <==> exists e :: !lib.treeItemStructure.matches(e)
  {
    var rule := Create(lib);
    forall c | c in Outcomes(rule) ensures c in iset{Pass, Note} {
      var e :| rule.evaluate(Some(e)) == Success(c);
      OnlyPassOrNote(lib, e);
    }
    if e :| lib.treeItemStructure.matches(e) {
      PassIff(lib, e);
    }
    if e :| !lib.treeItemStructure.matches(e) {
      NoteOtherwise(lib, e);
    }
  }
}
