/** The few parts of a DOM element the effects touch: its class list, its
    child elements in order, and its inline style as property/value text. */
module Dom {

  class Element {
    var classes: set<string>
    var children: seq<Element>
    var style: map<string, string>

    /** `document.createElement("div")` followed by inline style settings. */
    constructor (style: map<string, string>)
      ensures this.classes == {} && this.children == [] && this.style == style
    {
      this.classes := {};
      this.children := [];
      this.style := style;
    }
  }

  /** The child list with `node` taken out and the other children kept in
      order, as `removeChild`/`remove` leave it. */
  function Without(children: seq<Element>, node: Element): (r: seq<Element>)
    ensures node !in r
    ensures forall i :: 0 <= i < |r| ==> r[i] in children && r[i] != node
    ensures forall i :: 0 <= i < |children| && children[i] != node ==> children[i] in r
    ensures node !in children ==> r == children
  {
    if children == [] then []
    else
      var rest := Without(children[1..], node);
      assert children == [children[0]] + children[1..];
      if children[0] == node then rest else [children[0]] + rest
  }
}
