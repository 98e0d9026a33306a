/** The document tree as mutable nodes; `value` is the tree a node stands for. */
module XmlNodes {
  import opened RecordXml

  class XmlNode {
    var tag: Tag
    var attrs: map<AttrName, Attr>
    var data: Data
    var children: seq<XmlNode>
    ghost var value: Xml
    ghost var repr: set<XmlNode>

    /** `AnscCreateXmlDomNode` and `AnscXmlDomNodeSetName`. */
    constructor (tag: Tag)
      ensures Valid() && repr == {this} && value == Xml(tag, map[], NoData, []) && children == []
    {
      this.tag, attrs, data, children := tag, map[], NoData, [];
      value, repr := Xml(tag, map[], NoData, []), {this};
    }

    ghost predicate Valid()
      reads this, repr
      decreases repr, 1
    {
      |children| == |value.children| && Stands()
    }

    /** The node stands for `value`, as far as the children of `value` go. */
    ghost predicate Stands()
      reads this, repr
      decreases repr, 0
    {
      && this in repr
      && value.tag == tag && value.attrs == attrs && value.data == data
      && |value.children| <= |children|
      && (forall i :: 0 <= i < |value.children| ==>
            && children[i] in repr && children[i].repr <= repr && this !in children[i].repr
            && children[i].Valid() && value.children[i] == children[i].value)
      && (forall i, j :: 0 <= i < j < |value.children| ==> children[i].repr !! children[j].repr)
    }

    /** A child has been added that is still being built. */
    ghost predicate Pending(c: XmlNode)
      reads this, repr
    {
      Stands() && |children| == |value.children| + 1 && children[|value.children|] == c
    }

    method SetAttr(name: AttrName, a: Attr)
      requires Valid()
      modifies `attrs, `value
      ensures Valid() && value == old(value).(attrs := old(value).attrs[name := a])
    {
      attrs := attrs[name := a];
      value := value.(attrs := attrs);
    }

    method SetData(d: Data)
      requires Valid()
      modifies `data, `value
      ensures Valid() && value == old(value).(data := d)
    {
      data := d;
      value := value.(data := d);
    }

    /** `AnscXmlDomNodeAddChild`. */
    method AddChild(c: XmlNode)
      requires Valid()
      modifies `children
      ensures Pending(c) && children == old(children) + [c]
    {
      children := children + [c];
    }

    /** A new node, attached before it is filled. */
    method AttachNew(tag: Tag) returns (n: XmlNode)
      requires Valid()
      modifies `children
      ensures Pending(n) && fresh(n) && n.Valid() && n.repr == {n} && n.value == Xml(tag, map[], NoData, [])
    {
      n := new XmlNode(tag);
      AddChild(n);
    }

    /** The child is built: it counts from here on. */
    ghost method Settle(c: XmlNode)
      requires Pending(c) && c.Valid() && c.repr !! repr
      modifies `value, `repr
      ensures Valid() && repr == old(repr) + c.repr
      ensures value == old(value).(children := old(value).children + [c.value])
    {
      value := value.(children := value.children + [c.value]);
      repr := repr + c.repr;
    }
  }
}
