/** What looking an attribute up means: the first one of its name. */
module XmlNames {
  import opened Wrappers
  import opened Xml

  /** The first attribute of this name has this value. */
  ghost predicate Has(node: Node, space: string, local: string, value: string) {
    var a := AttributesOf(node);
    exists i :: 0 <= i < |a| && a[i] == Attribute(Name(space, local), value)
                && forall j :: 0 <= j < i ==> a[j].name != Name(space, local)
  }

  ghost predicate Without(node: Node, space: string, local: string) {
    var a := AttributesOf(node);
    forall i :: 0 <= i < |a| ==> a[i].name != Name(space, local)
  }

  /** The first attribute with this local name, in whatever namespace, has this value. */
  ghost predicate HasLocal(node: Node, local: string, value: string) {
    var a := AttributesOf(node);
    exists i :: 0 <= i < |a| && a[i].name.local == local && a[i].value == value
                && forall j :: 0 <= j < i ==> a[j].name.local != local
  }

  ghost predicate WithoutLocal(node: Node, local: string) {
    var a := AttributesOf(node);
    forall i :: 0 <= i < |a| ==> a[i].name.local != local
  }

  lemma {:induction false} FirstNamed(a: seq<Attribute>, space: string, local: string) returns (i: nat)
    ensures i <= |a| && forall j :: 0 <= j < i ==> a[j].name != Name(space, local)
    ensures i < |a| ==> a[i].name == Name(space, local)
    ensures AttrNs(a, space, local) == if i < |a| then Some(a[i].value) else None
  {
    i := 0;
    if a != [] && a[0].name != Name(space, local) {
      var rest := FirstNamed(a[1..], space, local);
      i := rest + 1;
    }
  }

  lemma {:induction false} FirstLocal(a: seq<Attribute>, local: string) returns (i: nat)
    ensures i <= |a| && forall j :: 0 <= j < i ==> a[j].name.local != local
    ensures i < |a| ==> a[i].name.local == local
    ensures AttrAny(a, local) == if i < |a| then Some(a[i].value) else None
  {
    i := 0;
    if a != [] && a[0].name.local != local {
      var rest := FirstLocal(a[1..], local);
      i := rest + 1;
    }
  }

  /** Looking up by name finds the first attribute of that name, or nothing when there is none. */
  lemma HasIff(node: Node, space: string, local: string)
    ensures Without(node, space, local) <==> AttrNs(AttributesOf(node), space, local).None?
    ensures forall v :: Has(node, space, local, v) <==> AttrNs(AttributesOf(node), space, local) == Some(v)
  {
    var a := AttributesOf(node);
    var i := FirstNamed(a, space, local);
    forall v
      ensures Has(node, space, local, v) <==> AttrNs(a, space, local) == Some(v)
    {
      hide AttrNs;
      if i < |a| && a[i].value == v {
        assert a[i] == Attribute(Name(space, local), v);
      }
    }
  }

  /** Looking up by local name finds the first attribute with it, or nothing when there is none. */
  lemma HasLocalIff(node: Node, local: string)
    ensures WithoutLocal(node, local) <==> AttrAny(AttributesOf(node), local).None?
    ensures forall v :: HasLocal(node, local, v) <==> AttrAny(AttributesOf(node), local) == Some(v)
  {
    var i := FirstLocal(AttributesOf(node), local);
    hide AttrAny;
  }

  lemma LocalCovers(node: Node, space: string, local: string)
    ensures WithoutLocal(node, local) ==> Without(node, space, local)
  {
  }
}
