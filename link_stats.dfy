/**
 * `getLinkStats`: the best-effort, name-keyed statistics of every link of a
 * process's network namespace except loopback.
 */
module LinkStats {
  import opened StatsTypes

  /** True when some listed link carries `name`. */
  ghost predicate Listed(links: seq<Link>, name: string) {
    exists i :: 0 <= i < |links| && links[i].name == name
  }

  /** The position of the last link named `name`. */
  function LastIndexOf(links: seq<Link>, name: string): (k: nat)
    requires Listed(links, name)
    ensures k < |links| && links[k].name == name
    ensures forall j :: k < j < |links| ==> links[j].name != name
  {
    var last := |links| - 1;
    if links[last].name == name then last
    else
      assert Listed(links[..last], name) by {
        var i :| 0 <= i < |links| && links[i].name == name;
        assert links[..last][i].name == name;
      }
      LastIndexOf(links[..last], name)
  }

  /** The names of the listed links other than loopback. */
  function Names(links: seq<Link>): (names: set<string>)
    ensures forall name :: name in names ==> name != Loopback && Listed(links, name)
  {
    set i | 0 <= i < |links| && links[i].name != Loopback :: links[i].name
  }

  /** Reference definition: each listed non-loopback name mapped to the
      statistics of the last link listed under that name. */
  function LastListed(links: seq<Link>): map<string, LinkStatistics> {
    map name | name in Names(links) :: links[LastIndexOf(links, name)].statistics
  }

  /** What `getLinkStats` yields for a namespace listing; Go's nil map is `map[]`. */
  function LinkStatsOf(listing: LinkListing): map<string, LinkStatistics> {
    match listing
    case Links(links) => LastListed(links)
    case _ => map[]
  }

  /** Appending a link leaves the last position of every other name alone. */
  lemma LastIndexOfSnocOther(links: seq<Link>, link: Link, name: string)
    requires name != link.name && Listed(links, name)
    ensures Listed(links + [link], name)
    ensures LastIndexOf(links + [link], name) == LastIndexOf(links, name)
  {
    var ext := links + [link];
    var k := LastIndexOf(links, name);
    assert ext[k] == links[k];
    var k' := LastIndexOf(ext, name);
    assert ext[k'] == links[k'];
  }

  /** Appending a link adds its name to the names, unless it is loopback. */
  lemma NamesSnoc(links: seq<Link>, link: Link)
    ensures Names(links + [link]) == if link.name == Loopback then Names(links) else Names(links) + {link.name}
  {
    var ext := links + [link];
    forall name | name in Names(ext)
      ensures name in Names(links) || (name == link.name && name != Loopback)
    {
      var i :| 0 <= i < |ext| && ext[i].name != Loopback && ext[i].name == name;
      if i < |links| {
        assert links[i] == ext[i];
      }
    }
    forall name | name in Names(links) ensures name in Names(ext) {
      var i :| 0 <= i < |links| && links[i].name != Loopback && links[i].name == name;
      assert ext[i] == links[i];
    }
    if link.name != Loopback {
      assert ext[|links|] == link;
    }
  }

  /** Listing one more link adds or overwrites its entry, unless it is loopback. */
  lemma LastListedSnoc(links: seq<Link>, link: Link)
    ensures link.name == Loopback ==> LastListed(links + [link]) == LastListed(links)
    ensures link.name != Loopback ==> LastListed(links + [link]) == LastListed(links)[link.name := link.statistics]
  {
    NamesSnoc(links, link);
    if link.name == Loopback {
      LastListedSnocLoopback(links, link);
    } else {
      LastListedSnocOther(links, link);
    }
  }

  /** The loopback half of `LastListedSnoc`. */
  lemma LastListedSnocLoopback(links: seq<Link>, link: Link)
    requires link.name == Loopback
    requires Names(links + [link]) == Names(links)
    ensures LastListed(links + [link]) == LastListed(links)
  {
  }

  /** The non-loopback half of `LastListedSnoc`. */
  lemma LastListedSnocOther(links: seq<Link>, link: Link)
    requires link.name != Loopback
    requires Names(links + [link]) == Names(links) + {link.name}
    ensures LastListed(links + [link]) == LastListed(links)[link.name := link.statistics]
  {
  }

  /** `getLinkStats`: the empty (nil) map when namespace lookup, handle
      creation or listing fails; otherwise every non-loopback link is inserted
      into `ret` in listing order, so a later duplicate name overwrites an
      earlier one. */
  method GetLinkStats(listing: LinkListing) returns (ret: map<string, LinkStatistics>)
    ensures ret == LinkStatsOf(listing)
  {
    ret := map[];
    match listing {
      case NoNamespace => return map[];
      case NoHandle => return map[];
      case ListFailed => return map[];
      case Links(links) =>
        for k := 0 to |links|
          invariant ret == LastListed(links[..k])
        {
          LastListedSnoc(links[..k], links[k]);
          assert links[..k + 1] == links[..k] + [links[k]];
          if links[k].name != Loopback {
            ret := ret[links[k].name := links[k].statistics];
          }
        }
        assert links[..|links|] == links;
    }
  }

  /** A failed namespace lookup, handle creation or listing yields no entries. */
  lemma FailedListingIsEmpty(listing: LinkListing)
    requires !listing.Links?
    ensures LinkStatsOf(listing) == map[]
  {
  }

  /** On a successful listing the keys are exactly the listed names other than loopback. */
  lemma LinkStatsKeys(links: seq<Link>, name: string)
    ensures name in LinkStatsOf(Links(links)) <==> name != Loopback && Listed(links, name)
  {
  }

  /** Loopback is never a key, whatever else is listed. */
  lemma LoopbackExcluded(listing: LinkListing)
    ensures Loopback !in LinkStatsOf(listing)
  {
  }

  /** A name listed several times maps to the statistics of its last listing. */
  lemma LastListingWins(links: seq<Link>, i: nat)
    requires i < |links| && links[i].name != Loopback
    requires forall j :: i < j < |links| ==> links[j].name != links[i].name
    ensures links[i].name in LinkStatsOf(Links(links))
    ensures LinkStatsOf(Links(links))[links[i].name] == links[i].statistics
  {
  }
}
