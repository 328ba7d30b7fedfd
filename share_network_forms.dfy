/** The share-network forms: the create form, whose field list gets one
    subnet choice field per network, its submit handler, and the choice
    list of the add-security-service form. */
module ShareNetworkForms {
  import opened Common
  import SecurityServiceForms
  import ShareNetworkTables

  /** A network or a subnet as the networking service lists it; `nameOrId`
      is the label that service's client wrapper derives for it. */
  datatype Listed = Listed(id: string, nameOrId: string)
  type Network = Listed
  type Subnet = Listed

  // ---------------------------------------------------------------------
  // Field list construction

  const SubnetKeyPrefix: string := "subnet-choices-"

  /** `'subnet-choices-%s' % net_id`. */
  function SubnetKey(netId: string): (key: string)
    ensures |key| == |SubnetKeyPrefix| + |netId|
    ensures key[..|SubnetKeyPrefix|] == SubnetKeyPrefix && key[|SubnetKeyPrefix|..] == netId
  {
    SubnetKeyPrefix + netId
  }

  /** Distinct networks get distinct subnet keys. */
  lemma SubnetKeyInjective(a: string, b: string)
    requires SubnetKey(a) == SubnetKey(b)
    ensures a == b
  {
    assert a == SubnetKey(a)[|SubnetKeyPrefix|..];
  }

  /** A subnet key is never one of the declared field keys: it is longer
      than all of them. */
  lemma SubnetKeyNotDeclared(netId: string)
    ensures SubnetKey(netId) != "name" && SubnetKey(netId) != "neutron_net_id" && SubnetKey(netId) != "description"
  {
  }

  /** The placeholder, then one `(id, name_or_id)` entry per listed
      network or subnet, in listing order. */
  function ListingChoices(items: seq<Listed>): (r: seq<Choice>)
    ensures |r| == 1 + |items|
    ensures r[0] == Placeholder
    ensures forall i :: 0 <= i < |items| ==> r[i + 1] == Choice(items[i].id, items[i].nameOrId)
  {
    [Placeholder] + seq(|items|, i requires 0 <= i < |items| => Choice(items[i].id, items[i].nameOrId))
  }

  const NameField: Field := CharField("name", Some(255), true)
  const DescriptionField: Field := CharField("description", None, false)

  function NetField(choices: seq<Choice>): Field {
    ChoiceField("neutron_net_id", choices, true)
  }

  /** The subnet field of a network with its subnets listed. */
  function SubnetField(netId: string, subnets: seq<Subnet>): Field {
    ChoiceField(SubnetKey(netId), ListingChoices(subnets), true)
  }

  /** The declared fields, in declaration order, before any choices are set. */
  const DeclaredFields: seq<Field> := [NameField, NetField([]), DescriptionField]

  predicate HasKey(fields: seq<Field>, key: string) {
    exists i :: 0 <= i < |fields| && fields[i].key == key
  }

  /** The first position of `key` in the field list. */
  function KeyIndex(fields: seq<Field>, key: string): (r: Option<nat>)
    ensures r.None? <==> forall i :: 0 <= i < |fields| ==> fields[i].key != key
    ensures r.Some? ==> r.value < |fields| && fields[r.value].key == key &&
                        forall j :: 0 <= j < r.value ==> fields[j].key != key
  {
    if fields == [] then None
    else if fields[0].key == key then Some(0)
    else match KeyIndex(fields[1..], key)
      case None => None
      case Some(k) => Some(k + 1)
  }

  /** Python's `list.insert(index, x)`: before position `index`, or at
      the end when `index` is past it. */
  function ListInsert(s: seq<Field>, index: nat, f: Field): (r: seq<Field>)
    ensures |r| == |s| + 1
  {
    if index <= |s| then s[..index] + [f] + s[index..] else s + [f]
  }

  /** The list with the field under `key`, if any, taken out. */
  function Without(fields: seq<Field>, key: string): seq<Field> {
    match KeyIndex(fields, key)
    case None => fields
    case Some(n) => fields[..n] + fields[n + 1..]
  }

  /** Where an insertion before `index` lands once `key` is taken out: one
      place earlier when the key stood before `index`. */
  function InsertIndex(fields: seq<Field>, index: nat, key: string): nat {
    match KeyIndex(fields, key)
    case None => index
    case Some(n) => if n < index then index - 1 else index
  }

  /** The ordered field dictionary's `insert(index, key, value)`: a key
      already present is first taken out, then the field goes in before
      position `index`. */
  function Insert(fields: seq<Field>, index: nat, f: Field): seq<Field> {
    ListInsert(Without(fields, f.key), InsertIndex(fields, index, f.key), f)
  }

  /** Where `ListInsert` puts the new field, and where the others go. */
  lemma ListInsertShape(s: seq<Field>, index: nat, f: Field)
    ensures var r := ListInsert(s, index, f);
            var p := if index <= |s| then index else |s|;
            && r[p] == f
            && (forall i :: 0 <= i < p ==> r[i] == s[i])
            && (forall i :: p < i < |r| ==> r[i] == s[i - 1])
  {
  }

  /** Taking a key out of a list with unique keys leaves a list with unique
      keys, without that key, holding every other field. */
  lemma WithoutShape(fields: seq<Field>, key: string)
    requires UniqueKeys(fields)
    ensures var w := Without(fields, key);
            && UniqueKeys(w)
            && (forall i :: 0 <= i < |w| ==> w[i].key != key)
            && (forall i :: 0 <= i < |fields| && fields[i].key != key ==> fields[i] in w)
            && (forall x :: x in w ==> x in fields)
  {
    match KeyIndex(fields, key)
    case None =>
    case Some(n) =>
      var w := fields[..n] + fields[n + 1..];
      assert forall i :: 0 <= i < n ==> w[i] == fields[i];
      assert forall i :: n <= i < |w| ==> w[i] == fields[i + 1];
      forall i, j | 0 <= i < j < |w| ensures w[i].key != w[j].key {
        var i' := if i < n then i else i + 1;
        var j' := if j < n then j else j + 1;
        assert w[i] == fields[i'] && w[j] == fields[j'];
      }
      forall i | 0 <= i < |w| ensures w[i].key != key {
        var i' := if i < n then i else i + 1;
        assert w[i] == fields[i'];
      }
      forall i | 0 <= i < |fields| && fields[i].key != key ensures fields[i] in w {
        if i < n { assert w[i] == fields[i]; } else { assert w[i - 1] == fields[i]; }
      }
  }

  /** Putting a field under a fresh key into a list with unique keys
      leaves the keys unique. */
  lemma ListInsertUnique(w: seq<Field>, at: nat, f: Field)
    requires UniqueKeys(w)
    requires forall i :: 0 <= i < |w| ==> w[i].key != f.key
    ensures UniqueKeys(ListInsert(w, at, f))
  {
    ListInsertShape(w, at, f);
    var r := ListInsert(w, at, f);
    var p := if at <= |w| then at else |w|;
    forall i, j | 0 <= i < j < |r| ensures r[i].key != r[j].key {
      if i == p {
        assert r[j] == w[j - 1];
      } else if j == p {
        assert r[i] == w[i];
      } else {
        var i' := if i < p then i else i - 1;
        var j' := if j < p then j else j - 1;
        assert r[i] == w[i'] && r[j] == w[j'];
      }
    }
  }

  /** `ListInsert` holds the old fields and the new one, and nothing else. */
  lemma ListInsertMembers(w: seq<Field>, at: nat, f: Field)
    ensures forall x :: x in ListInsert(w, at, f) <==> x == f || x in w
  {
    ListInsertShape(w, at, f);
    var r := ListInsert(w, at, f);
    var p := if at <= |w| then at else |w|;
    assert r[p] == f;
    forall x | x in w ensures x in r {
      var q :| 0 <= q < |w| && w[q] == x;
      if q < p { assert r[q] == x; } else { assert r[q + 1] == x; }
    }
    forall x | x in r ensures x == f || x in w {
      var q :| 0 <= q < |r| && r[q] == x;
      if q < p { assert x == w[q]; } else if q > p { assert x == w[q - 1]; }
    }
  }

  /** The ordered dictionary never holds a key twice; an insertion keeps
      every other field and adds nothing but the new one. */
  lemma InsertKeepsKeysUnique(fields: seq<Field>, index: nat, f: Field)
    requires UniqueKeys(fields)
    ensures var r := Insert(fields, index, f);
            && UniqueKeys(r)
            && f in r
            && (forall i :: 0 <= i < |fields| && fields[i].key != f.key ==> fields[i] in r)
            && (forall x :: x in r ==> x == f || x in fields)
  {
    var w := Without(fields, f.key);
    var at := InsertIndex(fields, index, f.key);
    WithoutShape(fields, f.key);
    ListInsertUnique(w, at, f);
    ListInsertMembers(w, at, f);
  }

  /** Inserting a field under a key that is not yet present puts it at
      `index` and moves nothing else. */
  lemma InsertAbsent(fields: seq<Field>, index: nat, f: Field)
    requires index <= |fields|
    requires !HasKey(fields, f.key)
    ensures Insert(fields, index, f) == fields[..index] + [f] + fields[index..]
  {
  }

  /** Inserting a field with no choices and then setting the choices of
      the field under that key is the same as inserting the field with
      those choices at once. */
  lemma InsertThenSetChoices(fields: seq<Field>, index: nat, key: string, choices: seq<Choice>)
    requires UniqueKeys(fields)
    ensures KeyIndex(Insert(fields, index, ChoiceField(key, [], true)), key).Some?
    ensures var ins := Insert(fields, index, ChoiceField(key, [], true));
            var k := KeyIndex(ins, key).value;
            ins[k := ins[k].(choices := choices)] == Insert(fields, index, ChoiceField(key, choices, true))
  {
    var f0 := ChoiceField(key, [], true);
    var f1 := ChoiceField(key, choices, true);
    var w := Without(fields, key);
    var at := InsertIndex(fields, index, key);
    WithoutShape(fields, key);
    ListInsertShape(w, at, f0);
    ListInsertShape(w, at, f1);
    var ins := ListInsert(w, at, f0);
    var p := if at <= |w| then at else |w|;
    var r := KeyIndex(ins, key);
    assert ins[p].key == key;
    assert r.Some?;
    assert r.value <= p;
    assert ins[p := f1] == ListInsert(w, at, f1);
  }

  /** The field list after one subnet field per network has been
      inserted at position 2, network by network. */
  function InsertSubnetFields(fields: seq<Field>, networks: seq<Network>, subnetsOf: string -> seq<Subnet>): seq<Field>
    decreases |networks|
  {
    if networks == [] then fields
    else
      var net := networks[0];
      InsertSubnetFields(Insert(fields, 2, SubnetField(net.id, subnetsOf(net.id))), networks[1..], subnetsOf)
  }

  /** The subnet fields of the networks, last network first. */
  function ReversedSubnetFields(networks: seq<Network>, subnetsOf: string -> seq<Subnet>): (r: seq<Field>)
    ensures |r| == |networks|
    ensures forall k :: 0 <= k < |networks| ==>
              r[|networks| - 1 - k] == SubnetField(networks[k].id, subnetsOf(networks[k].id))
  {
    if networks == [] then []
    else ReversedSubnetFields(networks[1..], subnetsOf) + [SubnetField(networks[0].id, subnetsOf(networks[0].id))]
  }

  /** The field list the create form ends up with. */
  function CreateFields(networks: seq<Network>, subnetsOf: string -> seq<Subnet>): seq<Field> {
    InsertSubnetFields(DeclaredFields[1 := NetField(ListingChoices(networks))], networks, subnetsOf)
  }

  ghost predicate DistinctIds(networks: seq<Network>) {
    forall i, j :: 0 <= i < j < |networks| ==> networks[i].id != networks[j].id
  }

  /** Every field already under a listed network's subnet key is that
      network's subnet field. */
  ghost predicate SubnetKeysMatch(fields: seq<Field>, networks: seq<Network>, subnetsOf: string -> seq<Subnet>) {
    forall i, n :: 0 <= i < |fields| && n in networks && fields[i].key == SubnetKey(n.id) ==>
      fields[i] == SubnetField(n.id, subnetsOf(n.id))
  }

  /** One insertion of the loop: the keys stay unique, the remaining
      networks' keys still match, and the fields are the old ones plus the
      new subnet field. */
  lemma InsertSubnetFieldStep(fields: seq<Field>, networks: seq<Network>, subnetsOf: string -> seq<Subnet>)
    requires networks != []
    requires UniqueKeys(fields)
    requires SubnetKeysMatch(fields, networks, subnetsOf)
    ensures var f := SubnetField(networks[0].id, subnetsOf(networks[0].id));
            var next := Insert(fields, 2, f);
            && UniqueKeys(next)
            && SubnetKeysMatch(next, networks[1..], subnetsOf)
            && f in next
            && (forall x :: x in fields ==> x in next)
            && (forall x :: x in next ==> x == f || x in fields)
  {
    var f := SubnetField(networks[0].id, subnetsOf(networks[0].id));
    InsertKeepsKeysUnique(fields, 2, f);
    var next := Insert(fields, 2, f);
    SubnetKeysMatchAfter(fields, next, networks, subnetsOf);
    FieldsKeptAfter(fields, next, networks, subnetsOf);
  }

  /** A list made of the old fields and the first network's subnet field
      still matches the remaining networks' subnet keys. */
  lemma SubnetKeysMatchAfter(fields: seq<Field>, next: seq<Field>, networks: seq<Network>, subnetsOf: string -> seq<Subnet>)
    requires networks != []
    requires SubnetKeysMatch(fields, networks, subnetsOf)
    requires forall x :: x in next ==> x == SubnetField(networks[0].id, subnetsOf(networks[0].id)) || x in fields
    ensures SubnetKeysMatch(next, networks[1..], subnetsOf)
  {
    var net := networks[0];
    var f := SubnetField(net.id, subnetsOf(net.id));
    forall i, n | 0 <= i < |next| && n in networks[1..] && next[i].key == SubnetKey(n.id)
      ensures next[i] == SubnetField(n.id, subnetsOf(n.id))
    {
      assert n in networks;
      if next[i] == f {
        SubnetKeyInjective(net.id, n.id);
      } else {
        assert next[i] in fields;
      }
    }
  }

  /** Inserting the first network's subnet field into a list with unique
      keys that match the networks drops none of the old fields: a field
      already under that key is that very field. */
  lemma FieldsKeptAfter(fields: seq<Field>, next: seq<Field>, networks: seq<Network>, subnetsOf: string -> seq<Subnet>)
    requires networks != []
    requires SubnetKeysMatch(fields, networks, subnetsOf)
    requires forall i :: 0 <= i < |fields| && fields[i].key != SubnetKey(networks[0].id) ==> fields[i] in next
    requires SubnetField(networks[0].id, subnetsOf(networks[0].id)) in next
    ensures forall x :: x in fields ==> x in next
  {
    var net := networks[0];
    assert net in networks;
    forall x | x in fields ensures x in next {
      var j :| 0 <= j < |fields| && fields[j] == x;
      if fields[j].key == SubnetKey(net.id) {
        assert fields[j] == SubnetField(net.id, subnetsOf(net.id));
      }
    }
  }

  /** Whatever the listing, the insertions never leave two fields under
      one key, keep every field already there, and add nothing but the
      networks' subnet fields. */
  lemma {:induction false} InsertSubnetFieldsKeys(fields: seq<Field>, networks: seq<Network>, subnetsOf: string -> seq<Subnet>)
    requires UniqueKeys(fields)
    requires SubnetKeysMatch(fields, networks, subnetsOf)
    ensures var r := InsertSubnetFields(fields, networks, subnetsOf);
            && UniqueKeys(r)
            && (forall x :: x in fields ==> x in r)
            && (forall n :: n in networks ==> SubnetField(n.id, subnetsOf(n.id)) in r)
            && (forall x :: x in r ==> x in fields || exists n :: n in networks && x == SubnetField(n.id, subnetsOf(n.id)))
    decreases |networks|
  {
    if networks != [] {
      var net := networks[0];
      var f := SubnetField(net.id, subnetsOf(net.id));
      var next := Insert(fields, 2, f);
      var tail := networks[1..];
      InsertSubnetFieldStep(fields, networks, subnetsOf);
      InsertSubnetFieldsKeys(next, tail, subnetsOf);
      var r := InsertSubnetFields(next, tail, subnetsOf);
      assert r == InsertSubnetFields(fields, networks, subnetsOf);
      assert net in networks;
      forall n | n in networks ensures SubnetField(n.id, subnetsOf(n.id)) in r {
        if n != net { assert n in tail; }
      }
      forall x | x in r ensures x in fields || exists n :: n in networks && x == SubnetField(n.id, subnetsOf(n.id)) {
        if x !in next {
          var n :| n in tail && x == SubnetField(n.id, subnetsOf(n.id));
          assert n in networks;
        }
      }
    }
  }

  /** For any listing the create form holds each key once, keeps its
      declared "name", "neutron_net_id" and "description" fields, and has
      for every listed network exactly one field under its subnet key: the
      choice field listing that network's subnets. */
  lemma CreateFieldsKeys(networks: seq<Network>, subnetsOf: string -> seq<Subnet>)
    ensures var fs := CreateFields(networks, subnetsOf);
            && UniqueKeys(fs)
            && NameField in fs && NetField(ListingChoices(networks)) in fs && DescriptionField in fs
            && (forall n :: n in networks ==>
                  exists i :: 0 <= i < |fs| && fs[i] == SubnetField(n.id, subnetsOf(n.id)) &&
                    forall j :: 0 <= j < |fs| && j != i ==> fs[j].key != SubnetKey(n.id))
  {
    var base := DeclaredFields[1 := NetField(ListingChoices(networks))];
    assert base == [NameField, NetField(ListingChoices(networks)), DescriptionField];
    forall i, n | 0 <= i < |base| && n in networks ensures base[i].key != SubnetKey(n.id) {
      SubnetKeyNotDeclared(n.id);
    }
    InsertSubnetFieldsKeys(base, networks, subnetsOf);
    var fs := CreateFields(networks, subnetsOf);
    assert base[0] in base && base[1] in base && base[2] in base;
    forall n | n in networks
      ensures exists i :: 0 <= i < |fs| && fs[i] == SubnetField(n.id, subnetsOf(n.id)) &&
                forall j :: 0 <= j < |fs| && j != i ==> fs[j].key != SubnetKey(n.id)
    {
      var i :| 0 <= i < |fs| && fs[i] == SubnetField(n.id, subnetsOf(n.id));
      assert fs[i].key == SubnetKey(n.id);
    }
  }

  /** No field sits under a listed network's subnet key. */
  ghost predicate NoSubnetKeys(fields: seq<Field>, networks: seq<Network>) {
    forall i, n :: 0 <= i < |fields| && n in networks ==> fields[i].key != SubnetKey(n.id)
  }

  /** One insertion of the loop when the key is new: the field goes in at
      position 2, and the remaining networks still have distinct ids and
      no field under their keys. */
  lemma InsertSubnetFieldFresh(fields: seq<Field>, networks: seq<Network>, subnetsOf: string -> seq<Subnet>)
    requires |fields| >= 2 && networks != []
    requires DistinctIds(networks)
    requires NoSubnetKeys(fields, networks)
    ensures var f := SubnetField(networks[0].id, subnetsOf(networks[0].id));
            var next := fields[..2] + [f] + fields[2..];
            && InsertSubnetFields(fields, networks, subnetsOf) == InsertSubnetFields(next, networks[1..], subnetsOf)
            && DistinctIds(networks[1..])
            && NoSubnetKeys(next, networks[1..])
  {
    FreshInsertUnfolds(fields, networks, subnetsOf);
    DistinctIdsTail(networks);
    var f := SubnetField(networks[0].id, subnetsOf(networks[0].id));
    NoSubnetKeysAfter(fields, fields[..2] + [f] + fields[2..], networks, subnetsOf);
  }

  /** The first turn of the loop, on a fresh key, is a plain splice at 2. */
  lemma FreshInsertUnfolds(fields: seq<Field>, networks: seq<Network>, subnetsOf: string -> seq<Subnet>)
    requires |fields| >= 2 && networks != []
    requires NoSubnetKeys(fields, networks)
    ensures var f := SubnetField(networks[0].id, subnetsOf(networks[0].id));
            InsertSubnetFields(fields, networks, subnetsOf) ==
            InsertSubnetFields(fields[..2] + [f] + fields[2..], networks[1..], subnetsOf)
  {
    var net := networks[0];
    var f := SubnetField(net.id, subnetsOf(net.id));
    assert net in networks;
    InsertAbsent(fields, 2, f);
  }

  lemma DistinctIdsTail(networks: seq<Network>)
    requires networks != [] && DistinctIds(networks)
    ensures DistinctIds(networks[1..])
  {
    var tail := networks[1..];
    forall i, j | 0 <= i < j < |tail| ensures tail[i].id != tail[j].id {
      assert tail[i] == networks[i + 1] && tail[j] == networks[j + 1];
    }
  }

  /** Splicing in the first network's subnet field leaves no field under
      the key of a later network, their ids being distinct. */
  lemma NoSubnetKeysAfter(fields: seq<Field>, next: seq<Field>, networks: seq<Network>, subnetsOf: string -> seq<Subnet>)
    requires |fields| >= 2 && networks != []
    requires DistinctIds(networks)
    requires NoSubnetKeys(fields, networks)
    requires next == fields[..2] + [SubnetField(networks[0].id, subnetsOf(networks[0].id))] + fields[2..]
    ensures NoSubnetKeys(next, networks[1..])
  {
    var net := networks[0];
    forall i, n | 0 <= i < |next| && n in networks[1..] ensures next[i].key != SubnetKey(n.id) {
      var j :| 0 <= j < |networks[1..]| && networks[1..][j] == n;
      assert n == networks[j + 1];
      if i == 2 {
        if SubnetKey(net.id) == SubnetKey(n.id) { SubnetKeyInjective(net.id, n.id); }
      } else {
        var k := if i < 2 then i else i - 1;
        assert next[i] == fields[k];
      }
    }
  }

  /** Splicing `rest` in at position 2 of a list that already has `f`
      spliced in there is splicing `rest + [f]` into the original. */
  lemma SpliceAtTwo(fields: seq<Field>, rest: seq<Field>, f: Field)
    requires |fields| >= 2
    ensures var next := fields[..2] + [f] + fields[2..];
            next[..2] + rest + next[2..] == fields[..2] + (rest + [f]) + fields[2..]
  {
    var next := fields[..2] + [f] + fields[2..];
    assert next[..2] == fields[..2];
    assert next[2..] == [f] + fields[2..];
  }

  /** With distinct network ids and no subnet key present yet, the subnet
      fields end up between the first two fields and the rest, in reverse
      listing order. */
  lemma {:induction false} InsertSubnetFieldsLayout(fields: seq<Field>, networks: seq<Network>, subnetsOf: string -> seq<Subnet>)
    requires |fields| >= 2
    requires DistinctIds(networks)
    requires NoSubnetKeys(fields, networks)
    ensures InsertSubnetFields(fields, networks, subnetsOf) ==
            fields[..2] + ReversedSubnetFields(networks, subnetsOf) + fields[2..]
    decreases |networks|
  {
    if networks != [] {
      var f := SubnetField(networks[0].id, subnetsOf(networks[0].id));
      var next := fields[..2] + [f] + fields[2..];
      var tail := networks[1..];
      var rest := ReversedSubnetFields(tail, subnetsOf);
      InsertSubnetFieldFresh(fields, networks, subnetsOf);
      InsertSubnetFieldsLayout(next, tail, subnetsOf);
      SpliceAtTwo(fields, rest, f);
      assert ReversedSubnetFields(networks, subnetsOf) == rest + [f];
    }
  }

  /** The layout of the create form for a listing with distinct network
      ids: 3 + n fields, "name" and "neutron_net_id" first, "description"
      last, and in between the subnet fields in reverse network order. */
  lemma CreateFieldsLayout(networks: seq<Network>, subnetsOf: string -> seq<Subnet>)
    requires DistinctIds(networks)
    ensures var fs := CreateFields(networks, subnetsOf);
            && |fs| == 3 + |networks|
            && fs[0] == NameField
            && fs[1] == NetField(ListingChoices(networks))
            && fs[|fs| - 1] == DescriptionField
            && forall k :: 0 <= k < |networks| ==>
                 fs[|fs| - 2 - k] == SubnetField(networks[k].id, subnetsOf(networks[k].id))
  {
    var base := DeclaredFields[1 := NetField(ListingChoices(networks))];
    DeclaredFieldsFree(base, networks);
    InsertSubnetFieldsLayout(base, networks, subnetsOf);
    assert base[..2] == [NameField, NetField(ListingChoices(networks))] && base[2..] == [DescriptionField];
    SubnetFieldsFramed(networks, subnetsOf, NameField, NetField(ListingChoices(networks)), DescriptionField);
  }

  /** The declared fields hold no network's subnet key. */
  lemma DeclaredFieldsFree(base: seq<Field>, networks: seq<Network>)
    requires base == DeclaredFields[1 := NetField(ListingChoices(networks))]
    ensures base == [NameField, NetField(ListingChoices(networks)), DescriptionField]
    ensures NoSubnetKeys(base, networks)
  {
    forall i, n | 0 <= i < |base| && n in networks ensures base[i].key != SubnetKey(n.id) {
      SubnetKeyNotDeclared(n.id);
    }
  }

  /** Where each network's subnet field sits once the reversed subnet
      fields stand between two leading fields and one trailing field. */
  lemma SubnetFieldsFramed(networks: seq<Network>, subnetsOf: string -> seq<Subnet>, a: Field, b: Field, c: Field)
    ensures var fs := [a, b] + ReversedSubnetFields(networks, subnetsOf) + [c];
            && |fs| == 3 + |networks|
            && fs[0] == a && fs[1] == b && fs[|fs| - 1] == c
            && forall k :: 0 <= k < |networks| ==>
                 fs[|fs| - 2 - k] == SubnetField(networks[k].id, subnetsOf(networks[k].id))
  {
    var rev := ReversedSubnetFields(networks, subnetsOf);
    var fs := [a, b] + rev + [c];
    forall k | 0 <= k < |networks|
      ensures fs[|fs| - 2 - k] == SubnetField(networks[k].id, subnetsOf(networks[k].id))
    {
      assert fs[|fs| - 2 - k] == rev[|networks| - 1 - k];
    }
  }

  /** The share-network create form. Building it fills the network
      choices and inserts one subnet field per listed network at position
      2. `networks` is the network listing and `subnetsOf(id)` the subnet
      listing of network `id`. */
  class CreateShareNetworkForm {
    var fields: seq<Field>

    constructor (networks: seq<Network>, subnetsOf: string -> seq<Subnet>)
      ensures fields == CreateFields(networks, subnetsOf)
      ensures UniqueKeys(fields)
    {
      fields := DeclaredFields;
      new;
      fields := fields[1 := NetField(ListingChoices(networks))];
      var i := 0;
      while i < |networks|
        invariant 0 <= i <= |networks|
        invariant UniqueKeys(fields)
        invariant InsertSubnetFields(fields, networks[i..], subnetsOf) == CreateFields(networks, subnetsOf)
      {
        var net := networks[i];
        InsertSubnetField(net.id, subnetsOf(net.id));
        assert networks[i..][0] == net && networks[i..][1..] == networks[i + 1..];
        i := i + 1;
      }
    }

    /** One turn of the construction loop: insert an empty subnet choice
        field for network `netId` at position 2, then give it the
        network's subnets as choices. */
    method InsertSubnetField(netId: string, subnets: seq<Subnet>)
      requires UniqueKeys(fields)
      modifies this
      ensures fields == Insert(old(fields), 2, SubnetField(netId, subnets))
      ensures UniqueKeys(fields)
    {
      var key := SubnetKey(netId);
      InsertThenSetChoices(fields, 2, key, ListingChoices(subnets));
      InsertKeepsKeysUnique(fields, 2, SubnetField(netId, subnets));
      fields := Insert(fields, 2, ChoiceField(key, [], true));
      var k := KeyIndex(fields, key).value;
      fields := fields[k := fields[k].(choices := ListingChoices(subnets))];
    }
  }

  // ---------------------------------------------------------------------
  // Submitting the create form

  /** The share network the create call is asked for. */
  datatype CreateRequest = CreateRequest(name: string, description: string, neutronNetId: string, neutronSubnetId: string)

  const CreateFailedText: string := "Unable to create share network."

  function CreateSucceededText(name: string): string {
    "Successfully created share network: " + name
  }

  /** The keys the handler reads before it can call the service. */
  predicate CreateDataComplete(data: map<string, string>) {
    && "neutron_net_id" in data
    && SubnetKey(data["neutron_net_id"]) in data
    && "name" in data
    && "description" in data
  }

  /** The create handler. It copies the subnet chosen under the chosen
      network's subnet key into "neutron_subnet_id" and asks the service to
      create the network; `response` is the service's answer to that call.
      A missing key or a failed call is reported once and gives False. */
  method HandleCreate(data: map<string, string>, response: Result<ShareNetworkTables.ShareNetwork, ApiError>)
    returns (data': map<string, string>, sent: Option<CreateRequest>, outcome: Outcome<ShareNetworkTables.ShareNetwork>,
             messages: seq<Message>)
    ensures sent.Some? <==> CreateDataComplete(data)
    ensures "neutron_net_id" in data && SubnetKey(data["neutron_net_id"]) in data ==>
              data' == data["neutron_subnet_id" := data[SubnetKey(data["neutron_net_id"])]]
    ensures !("neutron_net_id" in data && SubnetKey(data["neutron_net_id"]) in data) ==> data' == data
    ensures sent.Some? ==>
              var subnet := data[SubnetKey(data["neutron_net_id"])];
              && sent.value == CreateRequest(data["name"], data["description"], data["neutron_net_id"], subnet)
              && data'["neutron_subnet_id"] == subnet
    ensures outcome.Returned? <==> sent.Some? && response.Ok?
    ensures outcome.Returned? ==> outcome.value == response.value
    ensures |messages| == 1
    ensures outcome.Returned? ==> messages[0] == SuccessMessage(CreateSucceededText(data["name"]))
    ensures outcome.ReturnedFalse? ==> messages[0] == ErrorMessage(CreateFailedText)
  {
    data', sent, outcome, messages := data, None, ReturnedFalse, [ErrorMessage(CreateFailedText)];
    if "neutron_net_id" !in data {
      return;
    }
    var netId := data["neutron_net_id"];
    var subnetKey := SubnetKey(netId);
    if subnetKey !in data {
      return;
    }
    data' := data["neutron_subnet_id" := data[subnetKey]];
    SubnetKeyNotDeclared(netId);
    if "name" !in data' || "description" !in data' {
      return;
    }
    sent := Some(CreateRequest(data'["name"], data'["description"], data'["neutron_net_id"], data'[subnetKey]));
    if response.Ok? {
      outcome := Returned(response.value);
      messages := [SuccessMessage(CreateSucceededText(data'["name"]))];
    }
  }

  // ---------------------------------------------------------------------
  // Add-security-service form

  /** The placeholder, then one entry per security service, labelled by its
      name or, for a nameless one, by its id. */
  function SecurityServiceChoices(services: seq<SecurityServiceForms.SecurityService>): (r: seq<Choice>)
    ensures |r| == 1 + |services|
    ensures r[0] == Placeholder
    ensures forall i :: 0 <= i < |services| ==>
              r[i + 1].value == services[i].id &&
              r[i + 1].display == (if services[i].name != "" then services[i].name else services[i].id)
  {
    [Placeholder] + seq(|services|, i requires 0 <= i < |services| =>
                          Choice(services[i].id, NameOr(services[i].name, services[i].id)))
  }
}
