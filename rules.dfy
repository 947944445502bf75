/**
 * The vocabulary every rule of the library is written in: the element under
 * test, conditions over elements, evaluation codes, rule metadata, and the
 * rule record itself (identity, metadata, applicability, evaluation).
 *
 * The element and the conditions defined elsewhere in the library are kept
 * abstract: an element is an opaque value, and a condition is a predicate
 * over elements together with the text its ToString gives.
 */
module Rules {
  import opened Wrappers

  /** One captured UI element; its properties and tree links are not modelled. */
  type Element(!new)

  /** A side-effect-free predicate over elements and its printable form. */
  datatype Condition = Condition(matches: Element -> bool, text: string)

  /**
   * The outcome of evaluating one rule against one element. The modelled rule
   * gives only Pass and Note; the other three codes are assumed from the
   * engine's outcome kinds, since the enumeration's definition is not part of
   * this model.
   */
  datatype EvaluationCode = Pass | Fail | Note | NotApplicable | Error

  /**
   * Rule identifiers. The modelled rule carries ContentViewTreeItemStructure;
   * the other two name rules whose sources are not part of this model. They
   * are here so that the rule's identifier is not the type's only value.
   */
  datatype RuleId =
    | ContentViewTreeItemStructure
    | ButtonShouldHavePatterns
    | BoundingRectangleOnWPFTextParent

  /**
   * Accessibility criteria a rule can be tagged with. The modelled rule is
   * tagged InfoAndRelationships; the enumeration's definition is not part of
   * this model, and the other values are further success criteria, here so
   * that the rule's tag is not the type's only value.
   */
  datatype A11yCriteriaId =
    | InfoAndRelationships
    | NameRoleValue
    | Keyboard
    | ObjectInformation

  /** Resource format templates a rule's texts are built from (a subset). */
  datatype Template = DescriptionsStructure | HowToFixStructure

  /**
   * Invariant-culture composite formatting of a template with its arguments,
   * kept symbolic: the template texts are localized resources.
   */
  datatype Text = Format(template: Template, args: seq<string>)

  /** The descriptive metadata of a rule. */
  datatype RuleInfo = RuleInfo(
    id: RuleId,
    description: Text,
    howToFix: Text,
    standard: A11yCriteriaId)

  /** The exceptions a rule's evaluation can raise. */
  datatype Exception = ArgumentException(message: string)

  /**
   * A rule: its metadata, the condition saying to which elements it applies,
   * and its evaluation function over possibly-null elements.
   */
  datatype Rule = Rule(
    info: RuleInfo,
    condition: Condition,
    evaluate: Option<Element> -> Result<EvaluationCode, Exception>)

  /** The codes a rule can give to some (non-null) element. */
  ghost function Outcomes(rule: Rule): iset<EvaluationCode>
  {
    iset c: EvaluationCode | exists e: Element :: rule.evaluate(Some(e)) == Success(c)
  }
}
