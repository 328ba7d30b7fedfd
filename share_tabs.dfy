/** The shares tab: the fix-up that gives a nameless share its id as its
    name, and the share listing with its failure fallback. */
module ShareTabs {
  import opened Common

  /** A share object of the listing. Its id never changes; its name is
      rewritten in place. An empty `name` stands for a share without one. */
  class Share {
    const id: string
    var name: string

    constructor (id: string, name: string)
      ensures this.id == id && this.name == name
    {
      this.id := id;
      this.name := name;
    }
  }

  /** The name a share has after the fix-up: its own, or its id when it
      had none. */
  function FixedName(name: string, id: string): string {
    NameOr(name, id)
  }

  /** A share that had a name keeps it; a nameless one is named by its id;
      and a second fix-up changes nothing. */
  lemma FixedNameFacts(name: string, id: string)
    ensures name != "" ==> FixedName(name, id) == name
    ensures name == "" ==> FixedName(name, id) == id
    ensures FixedName(FixedName(name, id), id) == FixedName(name, id)
  {
  }

  /** Gives every share of the list that has no name its id as its name.
      The list itself (its length, order and objects) is untouched, and no
      share other than those listed is written. A share listed twice is
      fixed once and left alone the second time. */
  method SetIdIfNameless(shares: seq<Share>)
    modifies set s | s in shares
    ensures forall s :: s in shares ==> s.name == FixedName(old(s.name), s.id)
    ensures forall s :: s in shares && old(s.name) == "" ==> s.name == s.id
    ensures forall s :: s in shares && old(s.name) != "" ==> s.name == old(s.name)
  {
    var i := 0;
    while i < |shares|
      invariant 0 <= i <= |shares|
      invariant forall s :: s in shares[..i] ==> s.name == FixedName(old(s.name), s.id)
      invariant forall s :: s in shares && s !in shares[..i] ==> s.name == old(s.name)
    {
      var share := shares[i];
      if share.name == "" {
        share.name := share.id;
      }
      FixedNameFacts(old(share.name), share.id);
      assert shares[..i + 1] == shares[..i] + [share];
      i := i + 1;
    }
    assert shares[..i] == shares;
  }

  const ShareListFailedText: string := "Unable to retrieve share list."

  /** The data of the shares table: the listing, or the empty list (and
      one error message) when the listing call failed. Filling in each
      share's tenant name is left to a helper outside this model. */
  method GetSharesData(listing: Result<seq<Share>, ApiError>) returns (shares: seq<Share>, messages: seq<Message>)
    ensures listing.Err? ==> shares == [] && messages == [ErrorMessage(ShareListFailedText)]
    ensures listing.Ok? ==> shares == listing.value && messages == []
  {
    match listing
    case Err(_) =>
      return [], [ErrorMessage(ShareListFailedText)];
    case Ok(found) =>
      return found, [];
  }
}
