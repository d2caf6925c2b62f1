/**
 * The few JavaScript string operations the service relies on, with their
 * JavaScript meaning: `indexOf`/`includes` on a substring, `replace` with a
 * string pattern (first occurrence only), `split` on a one-character
 * separator, and `toLowerCase` restricted to ASCII letters.
 */
module JsStrings {
  import opened Wrappers

  /** `pat` occurs in `s` starting at index `i`. */
  predicate OccursAt(s: string, pat: string, i: nat) {
    i + |pat| <= |s| && s[i..i + |pat|] == pat
  }

  /** The first index at or after `from` where `pat` occurs, as `s.indexOf(pat, from)`. */
  function IndexOfFrom(s: string, pat: string, from: nat): (r: Option<nat>)
    ensures r.Some? ==> from <= r.value && OccursAt(s, pat, r.value)
    ensures r.Some? ==> forall j: nat :: from <= j < r.value ==> !OccursAt(s, pat, j)
    ensures r.None? ==> forall j: nat :: from <= j ==> !OccursAt(s, pat, j)
    decreases |s| - from
  {
    if |s| < from + |pat| then None
    else if OccursAt(s, pat, from) then Some(from)
    else IndexOfFrom(s, pat, from + 1)
  }

  function IndexOf(s: string, pat: string): Option<nat> {
    IndexOfFrom(s, pat, 0)
  }

  /** `s.includes(pat)`: `pat` occurs somewhere in `s`. */
  function Contains(s: string, pat: string): (found: bool)
    ensures found <==> exists j: nat :: OccursAt(s, pat, j)
  {
    IndexOf(s, pat).Some?
  }

  /**
   * `s.replace(pat, rep)` with a string pattern: text without `pat` is kept;
   * otherwise the first occurrence, and only that one, becomes `rep`.
   */
  function ReplaceFirst(s: string, pat: string, rep: string): (r: string)
    ensures !Contains(s, pat) ==> r == s
    ensures Contains(s, pat) ==> |r| == |s| - |pat| + |rep|
    ensures forall i: nat :: OccursAt(s, pat, i) && (forall j: nat :: j < i ==> !OccursAt(s, pat, j)) ==>
      r == s[..i] + rep + s[i + |pat|..]
  {
    match IndexOf(s, pat)
    case None => s
    case Some(i) => s[..i] + rep + s[i + |pat|..]
  }

  /** A match of `pat` inside the tail of `p + s` is a match inside `s`. */
  lemma OccursInSuffix(p: string, s: string, pat: string, j: nat)
    requires |p| <= j && OccursAt(p + s, pat, j)
    ensures OccursAt(s, pat, j - |p|)
  {
    assert (p + s)[j..j + |pat|] == s[j - |p|..j - |p| + |pat|];
  }

  /** The index of the first `c` in `s`. */
  function FirstIndex(s: string, c: char): (i: nat)
    requires c in s
    ensures i < |s| && s[i] == c && c !in s[..i]
  {
    if s[0] == c then 0
    else
      var i := 1 + FirstIndex(s[1..], c);
      assert s[..i] == [s[0]] + s[1..][..i - 1];
      i
  }

  /** Glues pieces back together with `sep` between them (`pieces.join(sep)`). */
  function Join(pieces: seq<string>, sep: char): string {
    if pieces == [] then ""
    else if |pieces| == 1 then pieces[0]
    else pieces[0] + [sep] + Join(pieces[1..], sep)
  }

  /**
   * `s.split(sep)` for a one-character separator: there is always at least
   * one piece, no piece holds the separator, and joining the pieces gives
   * `s` back.
   */
  function Split(s: string, sep: char): (pieces: seq<string>)
    ensures |pieces| >= 1
    ensures forall k :: 0 <= k < |pieces| ==> sep !in pieces[k]
    ensures Join(pieces, sep) == s
    decreases |s|
  {
    if sep !in s then [s]
    else
      var i := FirstIndex(s, sep);
      var rest := Split(s[i + 1..], sep);
      var pieces := [s[..i]] + rest;
      assert pieces[1..] == rest;
      assert s == s[..i] + [sep] + s[i + 1..];
      pieces
  }

  /** The first piece of `s.split(sep)` is the text before the first `sep`. */
  lemma SplitHead(s: string, sep: char)
    ensures Split(s, sep)[0] == if sep in s then s[..FirstIndex(s, sep)] else s
  {
  }

  /** No piece of a split is empty. */
  predicate NoEmptyPiece(pieces: seq<string>) {
    forall k :: 0 <= k < |pieces| ==> pieces[k] != ""
  }

  /**
   * `s` is non-empty, and every `sep` in it has a character other than
   * `sep` on both sides.
   */
  predicate WellSeparated(s: string, sep: char) {
    |s| > 0 &&
    forall i :: 0 <= i < |s| && s[i] == sep ==> 0 < i < |s| - 1 && s[i + 1] != sep
  }

  /** Splitting yields no empty piece exactly when the separators are well placed. */
  lemma {:induction false} NoEmptyPieceIff(s: string, sep: char)
    ensures NoEmptyPiece(Split(s, sep)) <==> WellSeparated(s, sep)
    decreases |s|
  {
    if sep in s {
      var i := FirstIndex(s, sep);
      var rest := s[i + 1..];
      NoEmptyPieceIff(rest, sep);
      SplitAtFirst(s, sep, i);
      if WellSeparated(s, sep) {
        WellSeparatedRest(s, sep, i);
      }
      if i > 0 && WellSeparated(rest, sep) {
        WellSeparatedJoin(s, sep, i);
      }
    }
  }

  /** A split at the first separator: the head piece is non-empty and the rest split has no empty piece. */
  lemma SplitAtFirst(s: string, sep: char, i: nat)
    requires sep in s && i == FirstIndex(s, sep)
    ensures NoEmptyPiece(Split(s, sep)) <==> i > 0 && NoEmptyPiece(Split(s[i + 1..], sep))
  {
    var tail := Split(s[i + 1..], sep);
    var pieces := Split(s, sep);
    assert pieces == [s[..i]] + tail;
    if i > 0 && NoEmptyPiece(tail) {
      forall k | 0 <= k < |pieces| ensures pieces[k] != "" {
        if k > 0 { assert pieces[k] == tail[k - 1]; }
      }
    }
    if NoEmptyPiece(pieces) {
      forall k | 0 <= k < |tail| ensures tail[k] != "" {
        assert pieces[k + 1] == tail[k];
      }
    }
  }

  /** Well-placed separators stay well placed after the first one. */
  lemma WellSeparatedRest(s: string, sep: char, i: nat)
    requires i < |s| && s[i] == sep && WellSeparated(s, sep)
    ensures WellSeparated(s[i + 1..], sep)
  {
    var rest := s[i + 1..];
    forall j | 0 <= j < |rest| && rest[j] == sep
      ensures 0 < j < |rest| - 1 && rest[j + 1] != sep
    {
      assert s[i + 1 + j] == sep;
    }
  }

  /** A non-empty separator-free head, one separator and a well-separated rest are well separated. */
  lemma WellSeparatedJoin(s: string, sep: char, i: nat)
    requires 0 < i < |s| && s[i] == sep && sep !in s[..i]
    requires WellSeparated(s[i + 1..], sep)
    ensures WellSeparated(s, sep)
  {
    var rest := s[i + 1..];
    forall j | 0 <= j < |s| && s[j] == sep
      ensures 0 < j < |s| - 1 && s[j + 1] != sep
    {
      if j > i {
        assert rest[j - i - 1] == sep;
      } else if j == i {
        assert s[j + 1] == rest[0];
      }
    }
  }

  /** A doubled separator leaves the separators badly placed. */
  lemma DoubledSeparator(s: string, sep: char)
    ensures Contains(s, [sep, sep]) ==> !WellSeparated(s, sep)
  {
    if Contains(s, [sep, sep]) {
      var j := IndexOf(s, [sep, sep]).value;
      assert s[j..j + 2] == [sep, sep];
      assert s[j] == sep && s[j + 1] == sep;
    }
  }

  /** ASCII `toLowerCase` on one character. */
  function LowerChar(c: char): char {
    if 'A' <= c <= 'Z' then (c as int + 32) as char else c
  }

  /**
   * `s.toLowerCase()` for text made of ASCII characters: same length, no
   * upper-case letter left, each upper-case letter replaced by its
   * lower-case partner and every other character kept.
   */
  function ToLower(s: string): (lower: string)
    ensures |lower| == |s|
    ensures forall i :: 0 <= i < |lower| ==> !('A' <= lower[i] <= 'Z')
    ensures forall i :: 0 <= i < |s| && 'A' <= s[i] <= 'Z' ==> lower[i] as int == s[i] as int + 32
    ensures forall i :: 0 <= i < |s| && !('A' <= s[i] <= 'Z') ==> lower[i] == s[i]
  {
    seq(|s|, i requires 0 <= i < |s| => LowerChar(s[i]))
  }
}
