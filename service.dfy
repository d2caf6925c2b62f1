/**
 * The service's request handlers over the shared `urls` table: shorten a
 * URL (validate, dedupe, generate a code, insert), follow a code (look it
 * up, refresh `lastUsed`, then sweep), and the expiry sweep itself. The
 * table is a class whose `rows` every handler reassigns in place.
 */
module Shortener {
  import opened Wrappers
  import opened JsStrings
  import opened UrlValidator
  import opened LinkStore
  import opened CodeGen

  /** What the shorten page shows: the invalid page, an existing code, or a new one. */
  datatype ShortenOutcome =
    | InvalidURL
    | Existing(code: string)
    | Created(code: string)

  /**
   * What every reachable table satisfies: stored URLs carry a scheme,
   * stored codes are seven alphanumeric characters, and no two rows share a
   * code, except codes whose lower-case form is `shorten`, which the retry
   * loop lets through even when they collide.
   */
  ghost function TableInvariant(rows: seq<Row>): (ok: bool)
    ensures ok ==> forall i, j :: 0 <= i < j < |rows| && rows[i].code == rows[j].code ==>
      ToLower(rows[i].code) == Reserved
  {
    SharedCodesCounted(rows);
    (forall i :: 0 <= i < |rows| ==> HasScheme(rows[i].url) && IsCode(rows[i].code)) &&
    (forall c :: ToLower(c) != Reserved ==> CountCode(rows, c) <= 1)
  }

  /** Every code two rows share is counted at least twice. */
  lemma SharedCodesCounted(rows: seq<Row>)
    ensures forall i, j :: 0 <= i < j < |rows| && rows[i].code == rows[j].code ==>
      CountCode(rows, rows[i].code) >= 2
  {
    forall i, j | 0 <= i < j < |rows| && rows[i].code == rows[j].code
      ensures CountCode(rows, rows[i].code) >= 2
    {
      SharedCodeCounted(rows, i, j);
    }
  }

  /** An insert of a normalised URL under an accepted code keeps the invariant. */
  lemma InsertKeepsInvariant(rows: seq<Row>, row: Row)
    requires TableInvariant(rows)
    requires HasScheme(row.url) && IsCode(row.code) && Accepts(rows, row.code)
    ensures TableInvariant(rows + [row])
  {
    var grown := rows + [row];
    assert forall i :: 0 <= i < |rows| ==> grown[i] == rows[i];
    FindByCodeNoneIff(rows, row.code);
    forall c | ToLower(c) != Reserved ensures CountCode(grown, c) <= 1 {
      CountCodeAppend(rows, row, c);
    }
  }

  /** Refreshing `lastUsed` keeps the invariant. */
  lemma TouchKeepsInvariant(rows: seq<Row>, code: string, now: int)
    requires TableInvariant(rows)
    ensures TableInvariant(Touch(rows, code, now))
  {
    forall c | ToLower(c) != Reserved ensures CountCode(Touch(rows, code, now), c) <= 1 {
      TouchKeepsCounts(rows, code, now, c);
    }
  }

  /** Deleting expired rows keeps the invariant. */
  lemma PurgeKeepsInvariant(rows: seq<Row>, cutoff: int)
    requires TableInvariant(rows)
    ensures TableInvariant(Purge(rows, cutoff))
  {
    var kept := Purge(rows, cutoff);
    forall i | 0 <= i < |kept| ensures HasScheme(kept[i].url) && IsCode(kept[i].code) {
      assert kept[i] in rows;
    }
    forall c | ToLower(c) != Reserved ensures CountCode(kept, c) <= 1 {
      PurgeCountsNoMore(rows, cutoff, c);
    }
  }

  /** The code a request path names: the path without its leading `/` (`slice(1)`). */
  function CodeOfPath(path: string): (code: string)
    ensures |path| > 0 ==> [path[0]] + code == path
    ensures |path| == 0 ==> code == ""
  {
    if |path| == 0 then path else path[1..]
  }

  class LinkTable {
    var rows: seq<Row>

    ghost predicate Valid()
      reads this
    {
      TableInvariant(rows)
    }

    constructor ()
      ensures Valid() && rows == []
    {
      rows := [];
    }

    /**
     * `POST /shorten`. An invalid URL or a URL already stored in one of its
     * three variants leaves the table alone; otherwise exactly one row
     * `(code, Normalize(url), now)` is appended under the first code the
     * retry loop accepts. `draws` stands for the random source.
     */
    method Shorten(url: string, draws: seq<seq<nat>>, now: int) returns (outcome: ShortenOutcome)
      requires Valid()
      requires forall j :: 0 <= j < |draws| ==> |draws[j]| == CodeLength && InAlphabet(draws[j])
      requires IsValidURL(url) && FindByURL(rows, url).None? ==>
        exists j :: 0 <= j < |draws| && Accepts(rows, Spell(draws[j]))
      modifies this
      ensures Valid()
      ensures !IsValidURL(url) ==> outcome == InvalidURL && rows == old(rows)
      ensures IsValidURL(url) && FindByURL(old(rows), url).Some? ==>
        outcome == Existing(FindByURL(old(rows), url).value.code) && rows == old(rows)
      ensures IsValidURL(url) && FindByURL(old(rows), url).None? ==>
        outcome.Created? && IsCode(outcome.code) && Accepts(old(rows), outcome.code) &&
        rows == old(rows) + [Row(outcome.code, Normalize(url), now)]
    {
      var validURL := ValidateURL(url);
      if !validURL {
        return InvalidURL;
      }
      var result := FindByURL(rows, url);
      if result.Some? {
        return Existing(result.value.code);
      }
      var randomCode, _ := GenerateCode(rows, draws);
      var urlFixed := Normalize(url);
      InsertKeepsInvariant(rows, Row(randomCode, urlFixed, now));
      rows := rows + [Row(randomCode, urlFixed, now)];
      outcome := Created(randomCode);
    }

    /**
     * The lookup and update of `GET /<code>`: an unknown code changes
     * nothing; a known one refreshes `lastUsed` of every row carrying it and
     * yields the URL of the first such row.
     */
    method Redirect(path: string, now: int) returns (target: Option<string>)
      requires Valid()
      modifies this
      ensures Valid()
      ensures FindByCode(old(rows), CodeOfPath(path)).None? ==>
        target == None && rows == old(rows)
      ensures FindByCode(old(rows), CodeOfPath(path)).Some? ==>
        target == Some(FindByCode(old(rows), CodeOfPath(path)).value.url) &&
        rows == Touch(old(rows), CodeOfPath(path), now)
    {
      var code := CodeOfPath(path);
      var result := FindByCode(rows, code);
      if result.None? {
        return None;
      }
      TouchKeepsInvariant(rows, code, now);
      rows := Touch(rows, code, now);
      target := Some(result.value.url);
    }

    /** `checkOldURLs`: delete every row last used before `cutoff`. */
    method PurgeOlderThan(cutoff: int)
      requires Valid()
      modifies this
      ensures Valid()
      ensures rows == Purge(old(rows), cutoff)
      ensures forall r :: r in rows ==> r.lastUsed >= cutoff
    {
      PurgeKeepsInvariant(rows, cutoff);
      rows := Purge(rows, cutoff);
    }

    /**
     * The whole `GET /<code>` handler: on a hit, refresh and then sweep
     * with `cutoff` (thirty days before the request); on a miss, nothing.
     * The refreshed rows survive the sweep whenever `cutoff <= now`.
     */
    method Visit(path: string, now: int, cutoff: int) returns (target: Option<string>)
      requires Valid()
      modifies this
      ensures Valid()
      ensures target.None? <==> FindByCode(old(rows), CodeOfPath(path)).None?
      ensures target.None? ==> rows == old(rows)
      ensures target.Some? ==> target == Some(FindByCode(old(rows), CodeOfPath(path)).value.url)
      ensures target.Some? ==> rows == Purge(Touch(old(rows), CodeOfPath(path), now), cutoff)
      ensures target.Some? && cutoff <= now ==>
        exists r :: r in rows && r.code == CodeOfPath(path) && r.url == target.value && r.lastUsed == now
    {
      target := Redirect(path, now);
      if target.Some? {
        ghost var touched := rows;
        ghost var i := FirstByCode(old(rows), CodeOfPath(path));
        PurgeOlderThan(cutoff);
        if cutoff <= now {
          assert touched[i] == old(rows)[i].(lastUsed := now);
          TouchedRowsSurvivePurge(old(rows), CodeOfPath(path), now, cutoff);
          assert touched[i] in rows;
        }
      }
    }
  }

  /**
   * Submitting the same URL twice: the first call creates a row, the
   * second finds it and answers with the same code, adding nothing.
   */
  method ShortenTwice(t: LinkTable, url: string, draws: seq<seq<nat>>, now1: int, now2: int)
    returns (first: ShortenOutcome, second: ShortenOutcome)
    requires t.Valid() && IsValidURL(url) && FindByURL(t.rows, url).None?
    requires forall j :: 0 <= j < |draws| ==> |draws[j]| == CodeLength && InAlphabet(draws[j])
    requires exists j :: 0 <= j < |draws| && Accepts(t.rows, Spell(draws[j]))
    modifies t
    ensures t.Valid()
    ensures first.Created? && second == Existing(first.code)
    ensures t.rows == old(t.rows) + [Row(first.code, Normalize(url), now1)]
  {
    first := t.Shorten(url, draws, now1);
    ShortenAgainFindsRow(old(t.rows), url, first.code, now1);
    second := t.Shorten(url, draws, now2);
  }
}
