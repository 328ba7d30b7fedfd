/** The share-network table: which row actions a share network offers in
    each status, how the Activate action marks itself when the tenant's
    share-network quota is used up, the status-to-health table, and the
    text and id shown for a row. */
module ShareNetworkTables {
  import opened Common

  /** A share network as the storage service reports it. An empty `name`
      stands for a network without a name. */
  datatype ShareNetwork = ShareNetwork(id: string, name: string, status: string)

  /** A share listed as referencing a share network. */
  datatype ShareRef = ShareRef(id: string, shareNetworkId: string)

  const DeletableStates: seq<string> := ["INACTIVE", "ERROR"]
  const EditableStates: seq<string> := ["INACTIVE"]

  // ---------------------------------------------------------------------
  // Row-action availability

  /** Delete is offered for an INACTIVE or ERROR network, and always when
      the action is asked without a row (the table-level button). */
  function DeleteAllowed(obj: Option<ShareNetwork>): (allowed: bool)
    ensures obj.None? ==> allowed
    ensures obj.Some? ==> (allowed <==> obj.value.status == "INACTIVE" || obj.value.status == "ERROR")
  {
    match obj
    case None => true
    case Some(sn) => sn.status in DeletableStates
  }

  /** Edit is offered iff the share network fetched for the row is INACTIVE. */
  function EditAllowed(fetched: ShareNetwork): (allowed: bool)
    ensures allowed <==> fetched.status == "INACTIVE"
  {
    fetched.status in EditableStates
  }

  /** The error a check raises when it is asked without a row and reads
      an attribute of the missing share network. */
  datatype Raised = AttributeError(attribute: string)

  /** Deactivate is offered iff the listing of shares that reference the
      network is empty and the network is ACTIVE. `referencing` is the
      share listing the storage service returns for the row's network.
      Asked without a row, the check reads the id of the missing network
      and raises. */
  function DeactivateAllowed(obj: Option<ShareNetwork>, referencing: seq<ShareRef>): (r: Result<bool, Raised>)
    requires obj.Some? ==> forall i :: 0 <= i < |referencing| ==> referencing[i].shareNetworkId == obj.value.id
    ensures r.Err? <==> obj.None?
    ensures obj.None? ==> r == Err(AttributeError("id"))
    ensures obj.Some? ==> (r == Ok(true) <==> |referencing| == 0 && obj.value.status == "ACTIVE")
    ensures |referencing| > 0 ==> r != Ok(true)
  {
    match obj
    case None => Err(AttributeError("id"))
    case Some(sn) => if |referencing| > 0 then Ok(false) else Ok(sn.status == "ACTIVE")
  }

  // ---------------------------------------------------------------------
  // Activate: the quota marking

  const ActivateLabel: string := "Activate Share Network"
  const QuotaExceededSuffix: string := "(Quota exceeded)"
  const Disabled: string := "disabled"

  /** The CSS classes and the label of the Activate action. */
  datatype Appearance = Appearance(classes: seq<string>, verboseName: string)

  /** The classes with every "disabled" entry taken out, the others in order. */
  function WithoutDisabled(classes: seq<string>): (r: seq<string>)
    ensures Disabled !in r
    ensures forall c :: c in r ==> c in classes
    ensures |r| <= |classes|
  {
    if classes == [] then []
    else if classes[0] == Disabled then WithoutDisabled(classes[1..])
    else [classes[0]] + WithoutDisabled(classes[1..])
  }

  /** What one call of Activate's availability check does to the action's
      appearance, given the number of share networks the tenant may still
      create. */
  function ApplyQuota(a: Appearance, available: int): Appearance {
    if available <= 0 then
      if Disabled !in a.classes then
        Appearance(a.classes + [Disabled], a.verboseName + " " + QuotaExceededSuffix)
      else a
    else
      Appearance(WithoutDisabled(a.classes), ActivateLabel)
  }

  /** The Activate row action. Its availability check rewrites the
      action's own `classes` and `verboseName`. */
  class ActivateAction {
    var classes: seq<string>
    var verboseName: string

    constructor (classes0: seq<string>)
      ensures classes == classes0 && verboseName == ActivateLabel
    {
      classes := classes0;
      verboseName := ActivateLabel;
    }

    function Look(): Appearance
      reads this
    {
      Appearance(classes, verboseName)
    }

    /** `available` is the tenant's remaining share-network quota as the
        quota service reports it. The answer depends on the status only;
        asked without a row, the check rewrites the appearance and then
        raises on reading the missing network's status. */
    method Allowed(available: int, share: Option<ShareNetwork>) returns (allowed: Result<bool, Raised>)
      modifies this
      ensures share.None? ==> allowed == Err(AttributeError("status"))
      ensures share.Some? ==> allowed == Ok(share.value.status == "INACTIVE")
      ensures Look() == ApplyQuota(old(Look()), available)
      ensures available <= 0 ==> Disabled in classes
      ensures available > 0 ==> Disabled !in classes && verboseName == ActivateLabel
    {
      if available <= 0 {
        if Disabled !in classes {
          classes := classes + [Disabled];
          verboseName := verboseName + " " + QuotaExceededSuffix;
        }
      } else {
        verboseName := ActivateLabel;
        var kept: seq<string> := [];
        var i := 0;
        while i < |classes|
          invariant 0 <= i <= |classes|
          invariant kept + WithoutDisabled(classes[i..]) == WithoutDisabled(classes)
        {
          assert classes[i..] == [classes[i]] + classes[i + 1..];
          if classes[i] != Disabled {
            kept := kept + [classes[i]];
          }
          i := i + 1;
        }
        classes := kept;
      }
      match share
      case None =>
        allowed := Err(AttributeError("status"));
      case Some(sn) =>
        allowed := Ok(sn.status == "INACTIVE");
    }
  }

  /** Filtering distributes over concatenation, so the classes other than
      "disabled" keep their relative order. */
  lemma {:induction false} WithoutDisabledAppend(a: seq<string>, b: seq<string>)
    ensures WithoutDisabled(a + b) == WithoutDisabled(a) + WithoutDisabled(b)
  {
    if a == [] {
      assert a + b == b;
    } else {
      assert (a + b)[1..] == a[1..] + b;
      WithoutDisabledAppend(a[1..], b);
    }
  }

  /** Filtering keeps every other class exactly as often as it occurred,
      and removes every "disabled". */
  lemma {:induction false} WithoutDisabledCounts(classes: seq<string>, c: string)
    ensures multiset(WithoutDisabled(classes))[c] == if c == Disabled then 0 else multiset(classes)[c]
  {
    if classes != [] {
      assert classes == [classes[0]] + classes[1..];
      WithoutDisabledCounts(classes[1..], c);
    }
  }

  /** Classes without "disabled" are left as they are. */
  lemma {:induction false} WithoutDisabledClean(classes: seq<string>)
    requires Disabled !in classes
    ensures WithoutDisabled(classes) == classes
  {
    if classes != [] {
      assert classes[0] != Disabled;
      WithoutDisabledClean(classes[1..]);
    }
  }

  /** With the quota used up, "disabled" occurs exactly once afterwards
      (when it occurred at most once before), and the suffix is added only
      when "disabled" was absent. */
  lemma QuotaExhaustedMarksOnce(a: Appearance, available: int)
    requires available <= 0
    requires multiset(a.classes)[Disabled] <= 1
    ensures multiset(ApplyQuota(a, available).classes)[Disabled] == 1
    ensures Disabled !in a.classes ==>
              ApplyQuota(a, available) == Appearance(a.classes + [Disabled], a.verboseName + " " + QuotaExceededSuffix)
    ensures Disabled in a.classes ==> ApplyQuota(a, available) == a
  {
    if Disabled !in a.classes {
      assert multiset(a.classes)[Disabled] == 0;
      assert multiset(a.classes + [Disabled]) == multiset(a.classes) + multiset{Disabled};
    }
  }

  /** With quota available, no "disabled" remains, every other class keeps
      its count and the label is reset. */
  lemma QuotaAvailableClears(a: Appearance, available: int, c: string)
    requires available > 0
    ensures Disabled !in ApplyQuota(a, available).classes
    ensures c != Disabled ==> multiset(ApplyQuota(a, available).classes)[c] == multiset(a.classes)[c]
    ensures ApplyQuota(a, available).verboseName == ActivateLabel
  {
    WithoutDisabledCounts(a.classes, c);
  }

  /** Asking again with the same quota changes nothing further. */
  lemma ApplyQuotaIdempotent(a: Appearance, available: int)
    ensures ApplyQuota(ApplyQuota(a, available), available) == ApplyQuota(a, available)
  {
    if available > 0 {
      WithoutDisabledClean(WithoutDisabled(a.classes));
    }
  }

  /** Once quota is available again, the appearance no longer shows that it
      was ever exhausted. */
  lemma QuotaRecoveryForgetsExhaustion(a: Appearance, exhausted: int, available: int)
    requires exhausted <= 0 < available
    ensures ApplyQuota(ApplyQuota(a, exhausted), available) == ApplyQuota(a, available)
  {
    if Disabled !in a.classes {
      WithoutDisabledAppend(a.classes, [Disabled]);
      assert WithoutDisabled([Disabled]) == [];
    }
  }

  // ---------------------------------------------------------------------
  // Status column

  /** The health a status column shows: True, None (in progress) or False. */
  datatype Health = Healthy | InProgress | Failed

  const StatusChoices: seq<(string, Health)> := [
    ("ACTIVE", Healthy),
    ("INACTIVE", Healthy),
    ("ACTIVATING", InProgress),
    ("DEACTIVATING", InProgress),
    ("ERROR", Failed)
  ]

  /** The health of the first entry of `table` whose status is `status`. */
  function LookupStatus(table: seq<(string, Health)>, status: string): (r: Option<Health>)
    ensures r.None? <==> forall i :: 0 <= i < |table| ==> table[i].0 != status
    ensures r.Some? ==> exists i :: 0 <= i < |table| && table[i] == (status, r.value) &&
                                     forall j :: 0 <= j < i ==> table[j].0 != status
  {
    if table == [] then None
    else if table[0].0 == status then Some(table[0].1)
    else LookupStatus(table[1..], status)
  }

  /** The five statuses of a share network and their health. */
  lemma StatusHealthTable()
    ensures LookupStatus(StatusChoices, "ACTIVE") == Some(Healthy)
    ensures LookupStatus(StatusChoices, "INACTIVE") == Some(Healthy)
    ensures LookupStatus(StatusChoices, "ACTIVATING") == Some(InProgress)
    ensures LookupStatus(StatusChoices, "DEACTIVATING") == Some(InProgress)
    ensures LookupStatus(StatusChoices, "ERROR") == Some(Failed)
  {
    assert StatusChoices[0].0 == "ACTIVE";
    assert StatusChoices[1].0 == "INACTIVE";
    assert StatusChoices[2].0 == "ACTIVATING";
    assert StatusChoices[3].0 == "DEACTIVATING";
    assert StatusChoices[4].0 == "ERROR";
  }

  /** A status outside the table gets no health from it. */
  lemma UnknownStatusHasNoHealth(status: string)
    requires status !in ["ACTIVE", "INACTIVE", "ACTIVATING", "DEACTIVATING", "ERROR"]
    ensures LookupStatus(StatusChoices, status) == None
  {
  }

  // ---------------------------------------------------------------------
  // Row text and id

  /** The text a row is known by: its name, or its id when it has none. */
  function ObjectDisplay(sn: ShareNetwork): (text: string)
    ensures sn.name != "" ==> text == sn.name
    ensures sn.name == "" ==> text == sn.id
  {
    NameOr(sn.name, sn.id)
  }

  /** The key a row is addressed by. */
  function ObjectId(sn: ShareNetwork): (id: string)
    ensures id == sn.id
  {
    sn.id
  }

  /** The display text of a row is its id exactly when the network has no
      name of its own or is named after its id; it is never empty for a
      network with an id. */
  lemma DisplayMatchesId(sn: ShareNetwork)
    ensures ObjectDisplay(sn) == ObjectId(sn) <==> sn.name == "" || sn.name == sn.id
    ensures sn.id != "" ==> ObjectDisplay(sn) != ""
  {
  }
}
