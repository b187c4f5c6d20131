/** A node of the XML tree (io/XMLTree.hpp): a markup label, attributes
    stored in a string-keyed HashMap, and an ordered list of children. */
module XmlTree {

  import opened Wrappers
  import opened OpenHashMap
  import HashFunctors

  /** The attribute capacity a node gets when none is given. */
  const DefaultAttributeCapacity: nat := 100

  datatype Node = Node(markup: string, attributes: HashMap<string, string>, children: seq<Node>)

  /** Every attribute table of the tree keeps the HashMap invariant. */
  ghost predicate WellFormed(n: Node)
    decreases n
  {
    && Valid(n.attributes)
    && forall i | 0 <= i < |n.children| :: WellFormed(n.children[i])
  }

  /** The XMLTree constructor with the default attribute capacity. */
  function NewNode(markup: string): (n: Node)
    ensures WellFormed(n)
    ensures GetMarkup(n) == markup && NumberOfChildren(n) == 0
    ensures forall name :: Scan(n.attributes.slots, name) == None
  {
    Node(markup, New(HashFunctors.StringHash, DefaultAttributeCapacity), [])
  }

  function GetMarkup(n: Node): string {
    n.markup
  }

  function NumberOfChildren(n: Node): nat {
    |n.children|
  }

  /** addAttribute: the name now reads as the value, re-adding a name
      overwrites it, and nothing else of the node changes. */
  function AddAttribute(n: Node, name: string, value: string): (r: Result<Node>)
    requires Valid(n.attributes)
    ensures r.Success? ==> Valid(r.value.attributes)
    ensures r.Success? ==> r.value.markup == n.markup && r.value.children == n.children
    ensures r.Success? ==> Scan(r.value.attributes.slots, name) == Some(value)
    ensures r.Success? ==> forall other | other != name ::
              Scan(r.value.attributes.slots, other) == Scan(n.attributes.slots, other)
  {
    var attributes :- Add(n.attributes, name, value);
    Success(n.(attributes := attributes))
  }

  /** getAttributeValue: the stored value, or "" for a missing name. */
  function GetAttributeValue(n: Node, name: string): (r: Result<string>)
    requires Valid(n.attributes)
    ensures r.Success? ==> r.value == Scan(n.attributes.slots, name).GetOr("")
    ensures Scan(n.attributes.slots, name).Some? ==> r.Success?
  {
    Get(n.attributes, name, "")
  }

  /** addChild appends: the child count grows by one and the new child is last. */
  function AddChild(n: Node, child: Node): (r: Node)
    ensures NumberOfChildren(r) == NumberOfChildren(n) + 1
    ensures r.children[..|n.children|] == n.children && r.children[|n.children|] == child
    ensures r.markup == n.markup && r.attributes == n.attributes
    ensures WellFormed(n) && WellFormed(child) ==> WellFormed(r)
  {
    var r := n.(children := n.children + [child]);
    assert forall i | 0 <= i < |n.children| :: r.children[i] == n.children[i];
    r
  }

  /** getChild: the i-th child, or no node (NULL) past the end. */
  function GetChild(n: Node, i: nat): (r: Option<Node>)
    ensures r.None? <==> i >= NumberOfChildren(n)
    ensures r.Some? ==> r.value == n.children[i]
  {
    if i >= |n.children| then None else Some(n.children[i])
  }

  /** Every name reads as "" on a fresh node: the first probe of the
      empty table already stops. */
  lemma FreshNodeHasNoAttributes(markup: string, name: string)
    ensures GetAttributeValue(NewNode(markup), name) == Success("")
  {
    var m := NewNode(markup).attributes;
    var p := Probe(m.hash(name), 0, |m.slots|);
    assert m.slots[p].Empty?;
    assert FindSlot(m, name) == Some(p);
  }

  /** Adding children never changes what getChild returns for earlier indices. */
  lemma {:induction false} AddChildKeepsEarlier(n: Node, child: Node, i: nat)
    requires i < NumberOfChildren(n)
    ensures GetChild(AddChild(n, child), i) == GetChild(n, i)
  {
    assert AddChild(n, child).children[i] == AddChild(n, child).children[..|n.children|][i];
  }
}
