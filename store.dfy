/**
 * The `urls(code, url, lastUsed)` table as a sequence of rows, and the
 * queries and updates the service runs on it: the dedupe lookup by URL,
 * the lookup by code, the `lastUsed` update and the expiry delete. A
 * lookup without ORDER BY returns the first row in table order.
 */
module LinkStore {
  import opened Wrappers

  datatype Row = Row(code: string, url: string, lastUsed: int)

  /**
   * `url.startsWith("http://") || url.startsWith("https://")`: such a URL
   * is at least seven characters long and begins with `http`.
   */
  function HasScheme(url: string): (b: bool)
    ensures b ==> |url| >= 7 && url[..4] == "http"
  {
    "http://" <= url || "https://" <= url
  }

  /**
   * The scheme fix-up before insertion: a URL without a scheme gets
   * `http://` in front; one with a scheme is kept as it is.
   */
  function Normalize(url: string): (fixed: string)
    ensures HasScheme(fixed)
    ensures HasScheme(url) ==> fixed == url
    ensures !HasScheme(url) ==> fixed == "http://" + url
  {
    if !("http://" <= url) && !("https://" <= url) then "http://" + url else url
  }

  /** Normalising twice is normalising once. */
  lemma NormalizeIdempotent(url: string)
    ensures Normalize(Normalize(url)) == Normalize(url)
  {
  }

  // ---------------------------------------------------------------- lookups

  /** `url = ? OR url = ? OR url = ?` with the submitted text and its two scheme variants. */
  predicate MatchesURL(stored: string, url: string) {
    stored == url || stored == "http://" + url || stored == "https://" + url
  }

  /** Index of the first row matching `url`, or `|rows|` when none does. */
  function FirstByURL(rows: seq<Row>, url: string): (i: nat)
    ensures i <= |rows|
    ensures forall j :: 0 <= j < i ==> !MatchesURL(rows[j].url, url)
    ensures i < |rows| ==> MatchesURL(rows[i].url, url)
  {
    if rows == [] then 0
    else if MatchesURL(rows[0].url, url) then 0
    else 1 + FirstByURL(rows[1..], url)
  }

  /**
   * The dedupe query: a row is found exactly when some row's `url` is one of
   * the three variants, and the row found is a stored row matching it.
   */
  function FindByURL(rows: seq<Row>, url: string): (found: Option<Row>)
    ensures found.None? <==> forall j :: 0 <= j < |rows| ==> !MatchesURL(rows[j].url, url)
    ensures found.Some? ==> found.value in rows && MatchesURL(found.value.url, url)
  {
    var i := FirstByURL(rows, url);
    if i < |rows| then Some(rows[i]) else None
  }

  /** Index of the first row with `code`, or `|rows|` when none has it. */
  function FirstByCode(rows: seq<Row>, code: string): (i: nat)
    ensures i <= |rows|
    ensures forall j :: 0 <= j < i ==> rows[j].code != code
    ensures i < |rows| ==> rows[i].code == code
  {
    if rows == [] then 0
    else if rows[0].code == code then 0
    else 1 + FirstByCode(rows[1..], code)
  }

  /**
   * `SELECT * FROM urls WHERE code = ?`: a row is found exactly when some
   * row carries the code, and the row found is a stored row carrying it.
   */
  function FindByCode(rows: seq<Row>, code: string): (found: Option<Row>)
    ensures found.None? <==> forall j :: 0 <= j < |rows| ==> rows[j].code != code
    ensures found.Some? ==> found.value in rows && found.value.code == code
  {
    var i := FirstByCode(rows, code);
    if i < |rows| then Some(rows[i]) else None
  }

  /** How many rows carry `code`. */
  function CountCode(rows: seq<Row>, code: string): nat {
    if rows == [] then 0
    else (if rows[0].code == code then 1 else 0) + CountCode(rows[1..], code)
  }

  /** The lookup by code misses exactly when no row carries the code. */
  lemma {:induction false} FindByCodeNoneIff(rows: seq<Row>, code: string)
    ensures FindByCode(rows, code).None? <==> CountCode(rows, code) == 0
  {
    if rows != [] {
      FindByCodeNoneIff(rows[1..], code);
    }
  }

  /** A row carrying `code` counts at least once. */
  lemma {:induction false} StoredCodeCounted(rows: seq<Row>, j: nat)
    requires j < |rows|
    ensures CountCode(rows, rows[j].code) >= 1
  {
    if j > 0 {
      StoredCodeCounted(rows[1..], j - 1);
    }
  }

  /** Two rows sharing a code count at least twice. */
  lemma {:induction false} SharedCodeCounted(rows: seq<Row>, i: nat, j: nat)
    requires i < j < |rows| && rows[i].code == rows[j].code
    ensures CountCode(rows, rows[i].code) >= 2
  {
    if i == 0 {
      StoredCodeCounted(rows[1..], j - 1);
    } else {
      SharedCodeCounted(rows[1..], i - 1, j - 1);
    }
  }

  /** Appending a row adds one to its own code's count and leaves the others. */
  lemma {:induction false} CountCodeAppend(rows: seq<Row>, r: Row, code: string)
    ensures CountCode(rows + [r], code) == CountCode(rows, code) + (if r.code == code then 1 else 0)
  {
    if rows != [] {
      assert (rows + [r])[1..] == rows[1..] + [r];
      CountCodeAppend(rows[1..], r, code);
    }
  }

  // ---------------------------------------------------------------- touch

  /** `UPDATE urls SET lastUsed = now WHERE code = code` */
  function Touch(rows: seq<Row>, code: string, now: int): (updated: seq<Row>)
    ensures |updated| == |rows|
    ensures forall i :: 0 <= i < |rows| && rows[i].code == code ==>
      updated[i] == rows[i].(lastUsed := now)
    ensures forall i :: 0 <= i < |rows| && rows[i].code != code ==>
      updated[i] == rows[i]
  {
    if rows == [] then []
    else
      var head := if rows[0].code == code then rows[0].(lastUsed := now) else rows[0];
      var updated := [head] + Touch(rows[1..], code, now);
      assert forall i :: 0 < i < |rows| ==> updated[i] == Touch(rows[1..], code, now)[i - 1];
      updated
  }

  /** Touching a code no row carries changes nothing. */
  lemma TouchUnknownCode(rows: seq<Row>, code: string, now: int)
    requires FindByCode(rows, code).None?
    ensures Touch(rows, code, now) == rows
  {
  }

  /** Touching keeps every code, so every code count. */
  lemma {:induction false} TouchKeepsCounts(rows: seq<Row>, code: string, now: int, c: string)
    ensures CountCode(Touch(rows, code, now), c) == CountCode(rows, c)
  {
    if rows != [] {
      TouchKeepsCounts(rows[1..], code, now, c);
      assert Touch(rows, code, now)[1..] == Touch(rows[1..], code, now);
    }
  }

  // ---------------------------------------------------------------- purge

  /** `DELETE FROM urls WHERE lastUsed < cutoff` */
  function Purge(rows: seq<Row>, cutoff: int): (kept: seq<Row>)
    ensures |kept| <= |rows|
    ensures forall r :: r in kept <==> r in rows && r.lastUsed >= cutoff
  {
    if rows == [] then []
    else if rows[0].lastUsed < cutoff then Purge(rows[1..], cutoff)
    else [rows[0]] + Purge(rows[1..], cutoff)
  }

  /** Purging a concatenation purges each part, so the kept rows stay in table order. */
  lemma {:induction false} PurgeAppend(a: seq<Row>, b: seq<Row>, cutoff: int)
    ensures Purge(a + b, cutoff) == Purge(a, cutoff) + Purge(b, cutoff)
  {
    if a != [] {
      assert (a + b)[1..] == a[1..] + b;
      PurgeAppend(a[1..], b, cutoff);
    } else {
      assert a + b == b;
    }
  }

  /** Rows that are recent enough all survive, in their order: nothing is dropped. */
  lemma {:induction false} PurgeKeepsRecent(rows: seq<Row>, cutoff: int)
    requires forall i :: 0 <= i < |rows| ==> rows[i].lastUsed >= cutoff
    ensures Purge(rows, cutoff) == rows
  {
    if rows != [] {
      PurgeKeepsRecent(rows[1..], cutoff);
    }
  }

  /** A second purge with the same cutoff removes nothing more. */
  lemma PurgeIdempotent(rows: seq<Row>, cutoff: int)
    ensures Purge(Purge(rows, cutoff), cutoff) == Purge(rows, cutoff)
  {
    var kept := Purge(rows, cutoff);
    assert forall i :: 0 <= i < |kept| ==> kept[i] in kept;
    PurgeKeepsRecent(kept, cutoff);
  }

  /** Two sweeps in a row act as one sweep with the later cutoff. */
  lemma {:induction false} PurgeTwice(rows: seq<Row>, c1: int, c2: int)
    ensures Purge(Purge(rows, c1), c2) == Purge(rows, if c1 < c2 then c2 else c1)
  {
    if rows != [] {
      PurgeTwice(rows[1..], c1, c2);
      if rows[0].lastUsed >= c1 {
        assert Purge(rows, c1) == [rows[0]] + Purge(rows[1..], c1);
        PurgeAppend([rows[0]], Purge(rows[1..], c1), c2);
      }
    }
  }

  /** Deleting rows never adds to a code's count. */
  lemma {:induction false} PurgeCountsNoMore(rows: seq<Row>, cutoff: int, c: string)
    ensures CountCode(Purge(rows, cutoff), c) <= CountCode(rows, c)
  {
    if rows != [] {
      PurgeCountsNoMore(rows[1..], cutoff, c);
      if rows[0].lastUsed >= cutoff {
        assert ([rows[0]] + Purge(rows[1..], cutoff))[1..] == Purge(rows[1..], cutoff);
      }
    }
  }

  /**
   * A row that was just touched is not swept by a purge whose cutoff is no
   * later than the touch.
   */
  lemma TouchedRowsSurvivePurge(rows: seq<Row>, code: string, now: int, cutoff: int)
    requires cutoff <= now
    ensures forall i :: 0 <= i < |rows| && rows[i].code == code ==>
      rows[i].(lastUsed := now) in Purge(Touch(rows, code, now), cutoff)
  {
    var touched := Touch(rows, code, now);
    assert forall i :: 0 <= i < |rows| ==> touched[i] in touched;
  }

  // ---------------------------------------------------------------- dedupe

  /** After a miss, the appended row is what the same submission finds next time. */
  lemma ShortenAgainFindsRow(rows: seq<Row>, url: string, code: string, now: int)
    requires FindByURL(rows, url).None?
    ensures FindByURL(rows + [Row(code, Normalize(url), now)], url) == Some(Row(code, Normalize(url), now))
  {
    var row := Row(code, Normalize(url), now);
    var grown := rows + [row];
    assert forall j :: 0 <= j < |rows| ==> grown[j] == rows[j];
    assert FirstByURL(rows, url) == |rows|;
    assert MatchesURL(grown[|rows|].url, url);
    assert FirstByURL(grown, url) == |rows|;
  }

  /** A bare URL stored with `http://` in front is found again when resubmitted with that prefix. */
  lemma HttpVariantFindsRow(rows: seq<Row>, s: string, code: string, now: int)
    requires !HasScheme(s)
    ensures FindByURL(rows + [Row(code, Normalize(s), now)], "http://" + s).Some?
  {
    var grown := rows + [Row(code, Normalize(s), now)];
    assert MatchesURL(grown[|rows|].url, "http://" + s);
  }

  /**
   * Dedupe matches only the literal variants: a URL stored as `http://s`
   * is not found by submitting `https://s`.
   */
  lemma HttpsVariantMissesHttpRow(s: string, code: string, now: int)
    ensures FindByURL([Row(code, "http://" + s, now)], "https://" + s).None?
  {
    var stored := "http://" + s;
    assert stored != "https://" + s by { assert stored[4] != ("https://" + s)[4]; }
    assert |stored| != |"http://" + "https://" + s|;
    assert |stored| != |"https://" + "https://" + s|;
  }
}
