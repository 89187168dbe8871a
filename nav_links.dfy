/** Active nav-link highlighting: when a section scrolls into view, the nav
    link pointing at it becomes the only link with the `active` class. */
module NavHighlight {
  import opened Wrappers

  /** One intersection-observer record, reduced to the target section's id
      and whether it is intersecting. */
  datatype Entry = Entry(targetId: string, isIntersecting: bool)

  /** First index at or after `from` whose href equals `target`. */
  function FirstFrom(hrefs: seq<string>, target: string, from: nat): (r: Option<nat>)
    requires from <= |hrefs|
    ensures r.Some? ==> from <= r.value < |hrefs| && hrefs[r.value] == target
    ensures r.Some? ==> forall j :: from <= j < r.value ==> hrefs[j] != target
    ensures r.None? ==> forall j :: from <= j < |hrefs| ==> hrefs[j] != target
    decreases |hrefs| - from
  {
    if from == |hrefs| then None
    else if hrefs[from] == target then Some(from)
    else FirstFrom(hrefs, target, from + 1)
  }

  /** The link `.nav-link[href="#id"]` selects: the first in document order. */
  function LinkFor(hrefs: seq<string>, id: string): (r: Option<nat>)
    ensures r.Some? ==> r.value < |hrefs| && hrefs[r.value] == "#" + id
    ensures r.Some? ==> forall j :: 0 <= j < r.value ==> hrefs[j] != "#" + id
    ensures r.None? <==> forall j :: 0 <= j < |hrefs| ==> hrefs[j] != "#" + id
  {
    FirstFrom(hrefs, "#" + id, 0)
  }

  /** Exactly link `k` of `n` is active. */
  function OnlyActive(n: nat, k: nat): (a: seq<bool>)
    ensures |a| == n
    ensures forall j :: 0 <= j < n ==> (a[j] <==> j == k)
  {
    seq(n, j => j == k)
  }

  /** The flags after the handler sees one entry. */
  function AfterEntry(active: seq<bool>, hrefs: seq<string>, e: Entry): (r: seq<bool>)
    ensures |r| == |active|
    ensures !Activates(hrefs, e) ==> r == active
  {
    match LinkFor(hrefs, e.targetId)
    case None => active
    case Some(k) => if e.isIntersecting then OnlyActive(|active|, k) else active
  }

  /** The flags after the handler sees a batch of entries, in order. */
  function AfterEntries(active: seq<bool>, hrefs: seq<string>, es: seq<Entry>): (r: seq<bool>)
    ensures |r| == |active|
    ensures (forall i :: 0 <= i < |es| ==> !Activates(hrefs, es[i])) ==> r == active
  {
    if es == [] then active
    else AfterEntry(AfterEntries(active, hrefs, es[..|es| - 1]), hrefs, es[|es| - 1])
  }

  /** An entry the handler acts on: its section is intersecting and has a nav link. */
  predicate Activates(hrefs: seq<string>, e: Entry)
  {
    e.isIntersecting && LinkFor(hrefs, e.targetId).Some?
  }

  /** The link of the last entry in the batch that the handler acts on. */
  function LastActivated(hrefs: seq<string>, es: seq<Entry>): (r: Option<nat>)
    ensures r.Some? ==> r.value < |hrefs|
    ensures r.Some? ==> exists i :: 0 <= i < |es| && Activates(hrefs, es[i]) &&
                                    LinkFor(hrefs, es[i].targetId) == r &&
                                    forall j :: i < j < |es| ==> !Activates(hrefs, es[j])
    ensures r.None? ==> forall i :: 0 <= i < |es| ==> !Activates(hrefs, es[i])
  {
    if es == [] then None
    else
      var e := es[|es| - 1];
      if Activates(hrefs, e) then LinkFor(hrefs, e.targetId)
      else
        var r := LastActivated(hrefs, es[..|es| - 1]);
        assert forall i :: 0 <= i < |es| - 1 ==> es[..|es| - 1][i] == es[i];
        r
  }

  /** One entry: an intersecting section with a link makes that link the only
      active one; any other entry leaves every flag as it was. */
  lemma EntryEffect(active: seq<bool>, hrefs: seq<string>, e: Entry)
    requires |active| == |hrefs|
    ensures |AfterEntry(active, hrefs, e)| == |hrefs|
    ensures Activates(hrefs, e) ==>
              forall j :: 0 <= j < |hrefs| ==>
                (AfterEntry(active, hrefs, e)[j] <==> j == LinkFor(hrefs, e.targetId).value)
    ensures !Activates(hrefs, e) ==> AfterEntry(active, hrefs, e) == active
  {
  }

  /** A batch decides by its last effective entry: after it only that entry's
      link is active, and a batch without one changes nothing. */
  lemma {:induction false} BatchEffect(active: seq<bool>, hrefs: seq<string>, es: seq<Entry>)
    requires |active| == |hrefs|
    ensures AfterEntries(active, hrefs, es) ==
              match LastActivated(hrefs, es)
              case None => active
              case Some(k) => OnlyActive(|hrefs|, k)
  {
    if es != [] {
      BatchEffect(active, hrefs, es[..|es| - 1]);
    }
  }

  /** The nav links, in document order, with their hrefs and `active` flags. */
  class NavBar {
    const hrefs: seq<string>
    const active: array<bool>

    ghost predicate Valid()
      reads this
    {
      active.Length == |hrefs|
    }

    constructor (hrefs: seq<string>, activeAtLoad: seq<bool>)
      requires |activeAtLoad| == |hrefs|
      ensures Valid() && this.hrefs == hrefs && active[..] == activeAtLoad
      ensures fresh(active)
    {
      this.hrefs := hrefs;
      active := new bool[|hrefs|](j requires 0 <= j < |activeAtLoad| => activeAtLoad[j]);
    }

    /** Removes `active` from every link, then adds it to link `k`. */
    method ActivateOnly(k: nat)
      requires Valid() && k < active.Length
      modifies active
      ensures Valid()
      ensures active[..] == OnlyActive(active.Length, k)
    {
      var j := 0;
      while j < active.Length
        invariant 0 <= j <= active.Length
        invariant forall i :: 0 <= i < j ==> !active[i]
      {
        active[j] := false;
        j := j + 1;
      }
      active[k] := true;
    }

    /** The observer callback for a single entry. */
    method OnEntry(e: Entry)
      requires Valid()
      modifies active
      ensures Valid()
      ensures active[..] == AfterEntry(old(active[..]), hrefs, e)
    {
      var link := LinkFor(hrefs, e.targetId);
      if link.None? {
        return;
      }
      if e.isIntersecting {
        ActivateOnly(link.value);
      }
    }

    /** The observer callback: the batch's entries in order. */
    method OnEntries(es: seq<Entry>)
      requires Valid()
      modifies active
      ensures Valid()
      ensures active[..] == AfterEntries(old(active[..]), hrefs, es)
    {
      var i := 0;
      while i < |es|
        invariant 0 <= i <= |es|
        invariant active[..] == AfterEntries(old(active[..]), hrefs, es[..i])
      {
        assert es[..i + 1][..i] == es[..i];
        OnEntry(es[i]);
        i := i + 1;
      }
      assert es[..|es|] == es;
    }
  }
}
