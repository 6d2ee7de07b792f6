/** The aria-expanded pass of `setupAccessibility` (js/modern.js): every
    accordion button whose `aria-expanded` attribute is falsy — missing
    (`getAttribute` returns null) or the empty string — gets `"false"`.
    The buttons are given in document order, each by the value of that
    attribute. */
module Accessibility {
  import opened Wrappers

  /** True iff the attribute value is JavaScript-truthy: present and
      non-empty. */
  predicate IsSet(v: Option<string>) {
    v.Some? && v.value != ""
  }

  /** The attribute value after the pass, for one button. */
  function DefaultOne(v: Option<string>): (r: Option<string>)
    ensures IsSet(r)
    ensures IsSet(v) ==> r == v
    ensures !IsSet(v) ==> r == Some("false")
  {
    if IsSet(v) then v else Some("false")
  }

  /** The pass over all buttons, in order. */
  function DefaultAriaExpanded(attrs: seq<Option<string>>): (r: seq<Option<string>>)
    ensures |r| == |attrs|
    ensures forall k | 0 <= k < |r| :: IsSet(r[k])
    ensures forall k | 0 <= k < |r| && IsSet(attrs[k]) :: r[k] == attrs[k]
    ensures forall k | 0 <= k < |r| && !IsSet(attrs[k]) :: r[k] == Some("false")
  {
    if attrs == [] then [] else [DefaultOne(attrs[0])] + DefaultAriaExpanded(attrs[1..])
  }

  /** Running the pass a second time changes nothing. */
  lemma AriaIdempotent(attrs: seq<Option<string>>)
    ensures DefaultAriaExpanded(DefaultAriaExpanded(attrs)) == DefaultAriaExpanded(attrs)
  {
  }

  /** When every button already has a value, the pass changes nothing. */
  lemma AriaKeepsSetValues(attrs: seq<Option<string>>)
    requires forall k | 0 <= k < |attrs| :: IsSet(attrs[k])
    ensures DefaultAriaExpanded(attrs) == attrs
  {
  }
}
