/** Collecting a crawl result (audit_engine/tasks.py:153-303, 441-451): challenged
    responses are quarantined, fetched pages are stored, each URL once, and a
    retry starts from an empty table. */
module Collection {
  import opened Outcomes
  import opened Sequences
  import opened Fractions

  /** A crawled page: its final URL, and whether it is a challenge. */
  datatype Item = Item(url: string, challenge: bool)

  /** A stored page row. */
  datatype Row = Row(url: string, quarantined: bool)

  // ---------------------------------------------------------- what is kept

  function Only(items: seq<Item>, challenge: bool): seq<Item> {
    if items == [] then []
    else
      var n := |items| - 1;
      Only(items[..n], challenge) + (if items[n].challenge == challenge then [items[n]] else [])
  }

  /** The approved URLs not seen before, each at its first occurrence. */
  function Kept(items: seq<Item>, approved: string -> bool, seen: set<string>): seq<string> {
    if items == [] then []
    else
      var n := |items| - 1;
      var earlier := Kept(items[..n], approved, seen);
      if items[n].url in seen || items[n].url in earlier || !approved(items[n].url) then earlier
      else earlier + [items[n].url]
  }

  lemma {:induction false} KeptIs(items: seq<Item>, approved: string -> bool, seen: set<string>)
    ensures Distinct(Kept(items, approved, seen))
    ensures forall url :: url in Kept(items, approved, seen) <==>
      url !in seen && approved(url) && (Item(url, true) in items || Item(url, false) in items)
  {
    if items != [] {
      var n := |items| - 1;
      KeptIs(items[..n], approved, seen);
      assert items == items[..n] + [items[n]];
    }
  }

  /** One item more: nothing new unless it is of the kind, approved and not seen. */
  lemma {:induction false} KeptOneMore(
    items: seq<Item>, i: nat, challenge: bool, approved: string -> bool, seen: set<string>)
    requires i < |items|
    ensures var earlier, url := Kept(Only(items[..i], challenge), approved, seen), items[i].url;
      Kept(Only(items[..i + 1], challenge), approved, seen) ==
        if items[i].challenge == challenge && url !in seen && url !in earlier && approved(url) then earlier + [url]
        else earlier
  {
    assert items[..i + 1][..i] == items[..i];
    var only := Only(items[..i], challenge);
    assert (only + [items[i]])[..|only|] == only && only + [] == only;
  }

  /** The quarantined URLs: challenged, approved, each once. */
  function Quarantined(items: seq<Item>, approved: string -> bool): seq<string> {
    Kept(Only(items, true), approved, {})
  }

  /** The fetched URLs: the approved others, each once, none of them quarantined. */
  function Fetched(items: seq<Item>, approved: string -> bool): seq<string> {
    Kept(Only(items, false), approved, Elements(Quarantined(items, approved)))
  }

  /** Stored and quarantined URLs never overlap and never repeat, whatever the
      crawl brought back. */
  lemma CollectedIsDisjoint(items: seq<Item>, approved: string -> bool)
    ensures Distinct(Quarantined(items, approved)) && Distinct(Fetched(items, approved))
    ensures forall url :: url in Fetched(items, approved) ==> url !in Quarantined(items, approved) && approved(url)
  {
    KeptIs(Only(items, true), approved, {});
    KeptIs(Only(items, false), approved, Elements(Quarantined(items, approved)));
  }

  lemma {:induction false} OnlyIs(items: seq<Item>, challenge: bool)
    ensures forall item :: item in Only(items, challenge) <==> item in items && item.challenge == challenge
  {
    if items != [] {
      OnlyIs(items[..|items| - 1], challenge);
      assert items == items[..|items| - 1] + [items[|items| - 1]];
    }
  }

  /** A URL answered by a challenge even once is quarantined, not stored. */
  lemma CollectedIs(items: seq<Item>, approved: string -> bool, url: string)
    ensures url in Quarantined(items, approved) <==> approved(url) && Item(url, true) in items
    ensures url in Fetched(items, approved) <==> approved(url) && Item(url, false) in items && Item(url, true) !in items
  {
    KeptIs(Only(items, true), approved, {});
    KeptIs(Only(items, false), approved, Elements(Quarantined(items, approved)));
    OnlyIs(items, true);
    OnlyIs(items, false);
  }

  // ------------------------------------------------------------- the table

  function RowsOf(urls: seq<string>, quarantined: bool): (rows: seq<Row>)
    ensures |rows| == |urls| && forall i :: 0 <= i < |urls| ==> rows[i] == Row(urls[i], quarantined)
  {
    seq(|urls|, i requires 0 <= i < |urls| => Row(urls[i], quarantined))
  }

  /** The rows of a completed attempt: the quarantined ones first. */
  function Expected(items: seq<Item>, approved: string -> bool): seq<Row> {
    RowsOf(Quarantined(items, approved), true) + RowsOf(Fetched(items, approved), false)
  }

  /** No URL twice: the table's constraint. */
  ghost predicate UniqueUrls(rows: seq<Row>) {
    forall i, j :: 0 <= i < j < |rows| ==> rows[i].url != rows[j].url
  }

  lemma ExpectedIsUnique(items: seq<Item>, approved: string -> bool)
    ensures UniqueUrls(Expected(items, approved))
  {
    CollectedIsDisjoint(items, approved);
    var quarantined, fetched := Quarantined(items, approved), Fetched(items, approved);
    forall i, j | 0 <= i < |quarantined| && 0 <= j < |fetched|
      ensures quarantined[i] != fetched[j]
    {
      assert fetched[j] in fetched;
    }
  }

  /** The page rows of one run. */
  class PageTable {
    var rows: seq<Row>

    ghost predicate Valid()
      reads this
    {
      UniqueUrls(rows)
    }

    constructor ()
      ensures Valid() && rows == []
    {
      rows := [];
    }

    method Clear()
      modifies this
      ensures Valid() && rows == []
    {
      rows := [];
    }

    /** Refuses a URL that is there already. */
    method Insert(row: Row) returns (ok: bool)
      requires Valid()
      modifies this
      ensures Valid() && (ok <==> forall i :: 0 <= i < |old(rows)| ==> old(rows)[i].url != row.url)
      ensures rows == if ok then old(rows) + [row] else old(rows)
    {
      ok := true;
      for i := 0 to |rows|
        invariant rows == old(rows) && ok && forall j :: 0 <= j < i ==> rows[j].url != row.url
      {
        if rows[i].url == row.url {
          return false;
        }
      }
      rows := rows + [row];
    }

    /** Inserts rows until one is refused or the worker is lost; `lost` is the
        number of inserts it lives to see. */
    method InsertAll(more: seq<Row>, lost: nat) returns (done: bool)
      requires Valid() && UniqueUrls(rows + more)
      modifies this
      ensures Valid() && rows == old(rows) + more[..if lost < |more| then lost else |more|]
      ensures done <==> |more| <= lost
    {
      ghost var was := rows;
      for i := 0 to |more|
        invariant Valid() && i <= lost && rows == was + more[..i]
      {
        if i == lost {
          return false;
        }
        assert forall j :: 0 <= j < |rows| ==> rows[j] == (was + more)[j];
        assert more[i] == (was + more)[|rows|];
        var ok := Insert(more[i]);
        assert more[..i + 1] == more[..i] + [more[i]];
      }
      done := true;
    }

    /** The loop of `_collect` over one kind of item. */
    method Gather(items: seq<Item>, challenge: bool, approved: string -> bool, before: seq<string>)
      returns (urls: seq<string>)
      ensures urls == Kept(Only(items, challenge), approved, Elements(before))
    {
      urls := [];
      for i := 0 to |items|
        invariant urls == Kept(Only(items[..i], challenge), approved, Elements(before))
      {
        KeptOneMore(items, i, challenge, approved, Elements(before));
        if items[i].challenge == challenge {
          var url := items[i].url;
          if url !in before && url !in urls && approved(url) { urls := urls + [url]; }
        }
      }
      assert items[..|items|] == items;
    }

    /** The rows of an attempt: the quarantined URLs, then the others fetched. */
    method Collect(items: seq<Item>, approved: string -> bool) returns (all: seq<Row>)
      ensures all == Expected(items, approved)
    {
      var quarantined := Gather(items, true, approved, []);
      assert Elements<string>([]) == {};
      var fetched := Gather(items, false, approved, quarantined);
      all := RowsOf(quarantined, true) + RowsOf(fetched, false);
    }

    /** One attempt: a retry clears the leftovers of the failed one, a first
        attempt finds none; then every row is inserted, unless the worker is lost
        on the way.  The table's constraint is never violated. */
    method Attempt(retry: bool, items: seq<Item>, approved: string -> bool, lost: nat) returns (done: bool)
      requires Valid() && (!retry ==> rows == [])
      modifies this
      ensures Valid()
      ensures done <==> |Expected(items, approved)| <= lost
      ensures rows == if done then Expected(items, approved) else Expected(items, approved)[..lost]
    {
      if retry { Clear(); }
      var all := Collect(items, approved);
      ExpectedIsUnique(items, approved);
      assert rows + all == all;
      done := InsertAll(all, lost);
      if done { assert all[..|all|] == all; }
    }
  }

  /** Without clearing, a retry over leftovers is refused at once: the first row
      of a lost attempt is there already. */
  lemma LeftoversBlockARetry(items: seq<Item>, approved: string -> bool, lost: nat)
    requires 0 < lost <= |Expected(items, approved)|
    ensures !UniqueUrls(Expected(items, approved)[..lost] + Expected(items, approved))
  {
    var all := Expected(items, approved);
    assert (all[..lost] + all)[0] == all[0] == (all[..lost] + all)[lost];
  }

  // ------------------------------------------------------------- integrity

  const QUARANTINE_URL_CAP := 50

  datatype Status = Clean | Degraded | Blocked

  /** How much of the site could be read. */
  datatype Integrity = Integrity(fetched: nat, challenged: nat, quarantined: seq<string>)

  function Capped(urls: seq<string>): seq<string> {
    if |urls| <= QUARANTINE_URL_CAP then urls else urls[..QUARANTINE_URL_CAP]
  }

  function IntegrityOf(items: seq<Item>, approved: string -> bool): Integrity {
    var quarantined := Quarantined(items, approved);
    Integrity(|Fetched(items, approved)|, |quarantined|, Capped(quarantined))
  }

  function ChallengeShare(integrity: Integrity): (share: Share)
    ensures share.num <= share.den
  {
    var total := integrity.fetched + integrity.challenged;
    if total == 0 then ZERO else Fraction(integrity.challenged, total)
  }

  /** Blocked above three tenths, degraded above one twentieth. */
  function StatusOf(integrity: Integrity): Status {
    var share := ChallengeShare(integrity);
    if 10 * share.num > 3 * share.den then Blocked
    else if 20 * share.num > share.den then Degraded
    else Clean
  }

  /** The thresholds on the share of challenged responses. */
  lemma StatusIff(integrity: Integrity)
    requires integrity.fetched + integrity.challenged > 0
    ensures var c, t := integrity.challenged, integrity.fetched + integrity.challenged;
      && (StatusOf(integrity) == Blocked <==> c as real / t as real > 0.3)
      && (StatusOf(integrity) == Clean <==> c as real / t as real <= 0.05)
  {
    var c, t := integrity.challenged, integrity.fetched + integrity.challenged;
    ShareExceeds(c, t, 3, 10);
    ShareExceeds(c, t, 1, 20);
  }

  lemma NothingReadIsClean(integrity: Integrity)
    requires integrity.fetched + integrity.challenged == 0
    ensures StatusOf(integrity) == Clean
  {
  }

  lemma ShareExceeds(c: nat, t: nat, n: nat, d: nat)
    requires t > 0 && d > 0
    ensures c as real / t as real > n as real / d as real <==> d * c > n * t
  {
    var x, y := c as real / t as real, n as real / d as real;
    assert x * t as real == c as real && y * d as real == n as real;
    assert (x - y) * (t * d) as real == (d * c - n * t) as real;
  }

  /** The first fifty quarantined URLs. */
  lemma CappedIs(urls: seq<string>)
    ensures Capped(urls) <= urls && |Capped(urls)| == if |urls| < 50 then |urls| else 50
  {
  }

  /** The pages rules may look at: those not known to be challenged. */
  function Evaluable(pages: seq<string>, challenged: seq<string>): seq<string> {
    if challenged == [] then pages
    else if pages == [] then []
    else
      var n := |pages| - 1;
      Evaluable(pages[..n], challenged) + (if pages[n] in challenged then [] else [pages[n]])
  }

  lemma {:induction false} EvaluableAre(pages: seq<string>, challenged: seq<string>)
    ensures forall url :: url in Evaluable(pages, challenged) <==> url in pages && url !in challenged
    ensures Distinct(pages) ==> Distinct(Evaluable(pages, challenged))
  {
    if challenged != [] && pages != [] {
      EvaluableAre(pages[..|pages| - 1], challenged);
      assert pages == pages[..|pages| - 1] + [pages[|pages| - 1]];
    }
  }

  lemma {:induction false} NothingToExclude(pages: seq<string>, challenged: seq<string>)
    requires forall i :: 0 <= i < |pages| ==> pages[i] !in challenged
    ensures Evaluable(pages, challenged) == pages
  {
    if challenged != [] && pages != [] { NothingToExclude(pages[..|pages| - 1], challenged); }
  }

  /** Although only fifty quarantined URLs are passed on, the rules see exactly the
      fetched pages. */
  lemma EvaluableIsFetched(items: seq<Item>, approved: string -> bool)
    ensures Evaluable(Fetched(items, approved), IntegrityOf(items, approved).quarantined) == Fetched(items, approved)
  {
    var fetched, quarantined := Fetched(items, approved), Quarantined(items, approved);
    CollectedIsDisjoint(items, approved);
    assert forall url :: url in Capped(quarantined) ==> url in quarantined;
    assert forall i :: 0 <= i < |fetched| ==> fetched[i] in fetched;
    NothingToExclude(fetched, Capped(quarantined));
  }
}
