/**
 * Message descriptors, messages created from them, clones of messages, and message identifiers.
 */
module Messages {
  import opened Common
  import opened Bytes
  import opened Codec
  import opened CodecProofs
  import opened Fields
  import CodecStream

  datatype Error = AlreadyRegistered(name: string) | FieldDoesNotExist(name: string)

  // ----- Descriptors --------------------------------------------------------------------------

  class FieldDescriptor {
    const name: string
    const ty: Ty

    constructor (name: string, ty: Ty)
      ensures this.name == name && this.ty == ty
    {
      this.name, this.ty := name, ty;
    }

    ghost function View(): Entry {
      Entry(name, ty, Default(ty))
    }

    /** `clone`. */
    constructor Of(other: FieldDescriptor)
      ensures name == other.name && ty == other.ty
    {
      name, ty := other.name, other.ty;
    }

    method CreateField() returns (f: Field)
      ensures fresh(f) && f.Valid() && f.View() == View()
    {
      f := new Field(name, ty);
    }
  }

  class MessageDescriptor {
    var kind: nat
    var descriptors: seq<FieldDescriptor>
    var byName: map<string, FieldDescriptor>

    ghost function Names(): (ns: seq<string>)
      reads this
      ensures |ns| == |descriptors|
      ensures forall i :: 0 <= i < |ns| ==> ns[i] == descriptors[i].name
    {
      var nodes := descriptors;
      seq(|nodes|, i requires 0 <= i < |nodes| => nodes[i].name)
    }

    ghost predicate Valid()
      reads this
    {
      Indexed(descriptors, Names(), byName)
    }

    /** The fields of a message created from this descriptor, in the order of the descriptors. */
    ghost function Entries(): (es: seq<Entry>)
      reads this
      ensures |es| == |descriptors|
      ensures forall i :: 0 <= i < |es| ==> es[i] == descriptors[i].View()
    {
      var nodes := descriptors;
      seq(|nodes|, i requires 0 <= i < |nodes| => nodes[i].View())
    }

    constructor (kind: nat)
      ensures Valid() && descriptors == [] && this.kind == kind
    {
      this.kind, descriptors, byName := kind, [], map[];
    }

    method InsertNode(it: nat, descriptor: FieldDescriptor)
      requires Valid() && it <= |descriptors| && descriptor.name !in Names()
      modifies this`descriptors, this`byName
      ensures Valid() && Names() == Insert(old(Names()), it, descriptor.name)
      ensures descriptors == Insert(old(descriptors), it, descriptor)
      ensures Entries() == Insert(old(Entries()), it, descriptor.View())
    {
      hide Indexed;
      IndexedName(descriptors, Names(), byName, descriptor.name);
      InsertKeepsIndex(descriptors, Names(), byName, it, descriptor, descriptor.name);
      ghost var es, ns := Insert(Entries(), it, descriptor.View()), Insert(Names(), it, descriptor.name);
      forall k | 0 <= k <= |descriptors|
        ensures Insert(descriptors, it, descriptor)[k].View() == es[k]
        ensures Insert(descriptors, it, descriptor)[k].name == ns[k]
      {
        InsertAt(descriptors, it, descriptor, k);
        InsertAt(Entries(), it, descriptor.View(), k);
        InsertAt(Names(), it, descriptor.name, k);
      }
      descriptors := Insert(descriptors, it, descriptor);
      byName := byName[descriptor.name := descriptor];
      assert Names() == ns && Entries() == es;
    }

    /** A second field of the same name is refused with an exception. */
    method RegisterField(descriptor: FieldDescriptor) returns (r: Result<MessageDescriptor, Error>)
      requires Valid()
      modifies this`descriptors, this`byName
      ensures Valid()
      ensures if descriptor.name in old(Names())
              then r == Failure(AlreadyRegistered(descriptor.name)) && descriptors == old(descriptors)
              else r == Success(this) && descriptors == Added(old(descriptors), descriptor)
                   && Entries() == Added(old(Entries()), descriptor.View())
    {
      hide Indexed;
      IndexedName(descriptors, Names(), byName, descriptor.name);
      if descriptor.name in byName {
        return Failure(AlreadyRegistered(descriptor.name));
      }
      InsertNode(AddPosition(descriptors), descriptor);
      return Success(this);
    }

    method Swap(other: MessageDescriptor)
      requires Valid() && other.Valid()
      modifies this, other
      ensures Valid() && other.Valid()
      ensures kind == old(other.kind) && descriptors == old(other.descriptors)
      ensures other.kind == old(kind) && other.descriptors == old(descriptors)
    {
      kind, other.kind := other.kind, kind;
      descriptors, other.descriptors := other.descriptors, descriptors;
      byName, other.byName := other.byName, byName;
    }

    /** Clones of the other's descriptors, in reverse order. One copied to itself is cleared before it is read. */
    method Copy(other: MessageDescriptor)
      requires Valid() && other.Valid()
      modifies this
      ensures Valid() && kind == old(other.kind)
      ensures other == this ==> descriptors == []
      ensures other != this ==> Entries() == Reverse(old(other.Entries()))
    {
      kind := other.kind;
      descriptors, byName := [], map[];
      assert Valid();
      hide Indexed, Insert, Reverse;
      ghost var es, ns := other.Entries(), other.Names();
      var it := 0;
      for i := 0 to |other.descriptors|
        invariant Valid() && it == 0 && |descriptors| == i && kind == old(other.kind)
        invariant other == this ==> descriptors == [] && es == []
        invariant other != this ==> other.Valid() && other.Entries() == es && other.Names() == ns
        invariant |es| == |ns| && i <= |es| && Entries() == Reverse(es[..i]) && Names() == Reverse(ns[..i])
      {
        NameIsLater(other.descriptors, ns, other.byName, i);
        var clone := new FieldDescriptor.Of(other.descriptors[i]);
        InsertNode(it, clone);
        ReverseGrows(es, i);
        ReverseGrows(ns, i);
      }
      assert es[..|es|] == es;
    }
  }

  // ----- Identifiers --------------------------------------------------------------------------

  const ID_RANGE := 0x1_0000_0000

  /** The identifier after `id`: a 32-bit counter, incremented. */
  function NextId(id: nat): nat {
    (id + 1) % ID_RANGE
  }

  /** The k-th identifier generated after the counter stood at `id`. */
  function LaterId(id: nat, k: nat): nat {
    if k == 0 then id else NextId(LaterId(id, k - 1))
  }

  lemma NextOfRemainder(n: nat)
    ensures NextId(n % ID_RANGE) == (n + 1) % ID_RANGE
  {
    var q, r := n / ID_RANGE, n % ID_RANGE;
    assert n == ID_RANGE * q + r;
    if r + 1 == ID_RANGE {
      assert n + 1 == ID_RANGE * (q + 1);
    }
  }

  lemma {:induction false} LaterIdIsSum(id: nat, k: nat)
    requires id < ID_RANGE
    ensures LaterId(id, k) == (id + k) % ID_RANGE
  {
    if k == 0 {
    } else {
      LaterIdIsSum(id, k - 1);
      NextOfRemainder(id + k - 1);
    }
  }

  /** Two identifiers are the same exactly when a whole number of rounds of the counter lies between them. */
  lemma IdsRepeat(id: nat, i: nat, j: nat)
    requires id < ID_RANGE && i <= j
    ensures LaterId(id, i) == LaterId(id, j) <==> (j - i) % ID_RANGE == 0
  {
    LaterIdIsSum(id, i);
    LaterIdIsSum(id, j);
    SameRemainder(id + i, id + j);
  }

  lemma SameRemainder(a: nat, b: nat)
    requires a <= b
    ensures a % ID_RANGE == b % ID_RANGE <==> (b - a) % ID_RANGE == 0
  {
    var q, q' := a / ID_RANGE, b / ID_RANGE;
    var r, r' := a % ID_RANGE, b % ID_RANGE;
    assert b - a == ID_RANGE * (q' - q) + (r' - r);
  }

  class IdGenerator {
    var last: nat

    ghost predicate Valid()
      reads this
    {
      last < ID_RANGE
    }

    constructor ()
      ensures Valid() && last == 0
    {
      last := 0;
    }

    method Generate() returns (id: nat)
      requires Valid()
      modifies this
      ensures Valid() && id == last == NextId(old(last))
    {
      last := NextId(last);
      id := last;
    }
  }

  // ----- Messages -----------------------------------------------------------------------------

  class Message {
    const id: nat
    const kind: nat
    const fieldset: FieldSet
    const session: nat

    ghost predicate Valid()
      reads this, fieldset, fieldset.fields
    {
      fieldset.Valid()
    }

    ghost function Entries(): seq<Entry>
      reads fieldset, fieldset.fields
    {
      fieldset.Entries()
    }

    /** A message with the descriptor's fields, added in the order of the descriptor's list. */
    constructor (descriptor: MessageDescriptor, session: nat, ids: IdGenerator)
      requires descriptor.Valid() && ids.Valid()
      modifies ids
      ensures Valid() && ids.Valid() && fresh(fieldset) && (forall f :: f in fieldset.fields ==> fresh(f))
      ensures id == ids.last == NextId(old(ids.last)) && kind == descriptor.kind && this.session == session
      ensures Entries() == RotateLeft(descriptor.Entries())
    {
      var next := ids.Generate();
      var fields := CreateFields(descriptor);
      id, kind, this.session, fieldset := next, descriptor.kind, session, fields;
    }

    /** `clone` and the copy constructor: a new identifier, and the fields in reverse order. */
    constructor Of(other: Message, ids: IdGenerator)
      requires other.Valid() && ids.Valid()
      modifies ids
      ensures Valid() && ids.Valid() && fresh(fieldset) && (forall f :: f in fieldset.fields ==> fresh(f))
      ensures id == ids.last == NextId(old(ids.last)) && kind == other.kind && session == other.session
      ensures Entries() == Reverse(other.Entries())
    {
      hide Indexed, HasType;
      var next := ids.Generate();
      var fields := CloneFields(other.fieldset);
      id, kind, session, fieldset := next, other.kind, other.session, fields;
    }

    function HasField(name: string): (r: bool)
      requires Valid()
      reads this, fieldset, fieldset.fields
      ensures r <==> name in fieldset.Names()
    {
      fieldset.Contains(name)
    }

    /** `field<T>(name)`: a field of this name and this type, or an exception. */
    method FieldOf(name: string, ty: Ty) returns (r: Result<Field, Error>)
      requires Valid()
      ensures r.Success?
         <==> exists i :: 0 <= i < |fieldset.fields| && fieldset.fields[i].name == name && fieldset.fields[i].ty == ty
      ensures r.Success? ==> r.value in fieldset.fields && r.value.name == name && r.value.ty == ty
      ensures r.Failure? ==> r.error == FieldDoesNotExist(name)
    {
      if fieldset.ContainsOf(name, ty) {
        return Success(fieldset.byName[name]);
      }
      return Failure(FieldDoesNotExist(name));
    }
  }

  /** The loop of the constructor: one new field for each descriptor, in the order of their list. */
  method CreateFields(descriptor: MessageDescriptor) returns (fs: FieldSet)
    requires descriptor.Valid()
    ensures fs.Valid() && fresh(fs) && (forall f :: f in fs.fields ==> fresh(f))
    ensures fs.Entries() == RotateLeft(descriptor.Entries())
  {
    ghost var es, ns := descriptor.Entries(), descriptor.Names();
    fs := new FieldSet();
    assert fs.Entries() == [] && fs.Names() == [];
    hide Indexed, HasType, Added, RotateLeft;
    for i := 0 to |descriptor.descriptors|
      invariant fs.Valid() && fresh(fs) && |fs.fields| == i
      invariant forall f :: f in fs.fields ==> fresh(f)
      invariant fs.Entries() == RotateLeft(es[..i]) && fs.Names() == RotateLeft(ns[..i])
    {
      RotatedNameIsEarlier(descriptor.descriptors, ns, descriptor.byName, i);
      AddCreated(fs, descriptor.descriptors[i]);
      AddedToRotated(es, i);
      AddedToRotated(ns, i);
    }
    assert es[..|es|] == es;
  }

  method CloneFields(other: FieldSet) returns (fs: FieldSet)
    requires other.Valid()
    ensures fs.Valid() && fresh(fs) && (forall f :: f in fs.fields ==> fresh(f))
    ensures fs.Entries() == Reverse(other.Entries())
  {
    hide Indexed, HasType;
    fs := new FieldSet();
    fs.Assign(other);
  }

  method AddCreated(fs: FieldSet, descriptor: FieldDescriptor)
    requires fs.Valid() && descriptor.name !in fs.Names()
    modifies fs
    ensures fs.Valid() && forall f :: f in fs.fields ==> f in old(fs.fields) || fresh(f)
    ensures fs.Entries() == Added(old(fs.Entries()), descriptor.View())
    ensures fs.Names() == Added(old(fs.Names()), descriptor.name)
  {
    hide Indexed, HasType, Added;
    var field := descriptor.CreateField();
    AddedElements(fs.fields, field);
    var added := fs.Add(field);
  }

  lemma AddedElements<T>(s: seq<T>, x: T)
    ensures forall y :: y in Added(s, x) <==> y == x || y in s
  {
    InsertElements(s, AddPosition(s), x);
  }

  lemma RotatedNameIsEarlier<T>(nodes: seq<T>, names: seq<string>, index: map<string, T>, i: nat)
    requires Indexed(nodes, names, index) && i < |names|
    ensures names[i] !in RotateLeft(names[..i])
  {
  }

  lemma AddedToRotated<T>(es: seq<T>, i: nat)
    requires i < |es|
    ensures Added(RotateLeft(es[..i]), es[i]) == RotateLeft(es[..i + 1])
  {
    assert es[..i + 1] == es[..i] + [es[i]];
  }
}
