/**
 * The URL validator of the shorten page. A submitted URL may omit its
 * scheme; it is accepted when it has no space and its authority segment
 * (the text before the first `/`, once the first `http://` and then the
 * first `https://` have been removed) holds a dot with text on both sides
 * of every dot.
 */
module UrlValidator {
  import opened Wrappers
  import opened JsStrings

  /**
   * `url.replace('http://', '').replace('https://', '')`: never longer than
   * the URL, and the URL itself when it holds neither scheme.
   */
  function StripScheme(url: string): (stripped: string)
    ensures |stripped| <= |url|
    ensures !Contains(url, "http://") && !Contains(url, "https://") ==> stripped == url
  {
    ReplaceFirst(ReplaceFirst(url, "http://", ""), "https://", "")
  }

  /** `StripScheme(url).split('/')[0]`: the text before the first slash. */
  function Authority(url: string): (a: string)
    ensures a <= StripScheme(url) && '/' !in a
    ensures |a| < |StripScheme(url)| ==> StripScheme(url)[|a|] == '/'
  {
    SplitHead(StripScheme(url), '/');
    Split(StripScheme(url), '/')[0]
  }

  /**
   * `isValidURL`: every dot-separated piece of the authority is non-empty,
   * and the URL has no space, the authority has no `..` and holds a `.`.
   * Equivalently: no space, and the authority is non-empty, holds a dot,
   * and every dot in it sits between two characters that are not dots.
   */
  function IsValidURL(url: string): (valid: bool)
    ensures valid <==>
      ' ' !in url && '.' in Authority(url) && WellSeparated(Authority(url), '.')
  {
    var beforeSlash := Authority(url);
    NoEmptyPieceIff(beforeSlash, '.');
    DoubledSeparator(beforeSlash, '.');
    NoEmptyPiece(Split(beforeSlash, '.')) &&
    !(' ' in url || Contains(beforeSlash, "..") || '.' !in beforeSlash)
  }

  /**
   * The `..` test is implied by the empty-piece test: validity is exactly
   * "no space, a dot in the authority, no empty piece".
   */
  lemma DoubleDotTestRedundant(url: string)
    ensures IsValidURL(url) <==>
      ' ' !in url && '.' in Authority(url) && NoEmptyPiece(Split(Authority(url), '.'))
  {
    NoEmptyPieceIff(Authority(url), '.');
  }

  /** The flag loop over the dot-separated pieces: cleared by any empty piece. */
  method EveryPieceNonEmpty(splitDots: seq<string>) returns (valid: bool)
    ensures valid == NoEmptyPiece(splitDots)
  {
    valid := true;
    for i := 0 to |splitDots|
      invariant valid <==> forall k :: 0 <= k < i ==> splitDots[k] != ""
    {
      if splitDots[i] == "" {
        valid := false;
      }
    }
  }

  /**
   * The validator as the source runs it: a flag cleared by a loop over the
   * pieces, then by the three string tests.
   */
  method ValidateURL(url: string) returns (valid: bool)
    ensures valid == IsValidURL(url)
    ensures valid ==> ' ' !in url && '.' in Authority(url)
  {
    var withoutHttp := ReplaceFirst(ReplaceFirst(url, "http://", ""), "https://", "");
    var beforeSlash := Split(withoutHttp, '/')[0];
    var splitDots := Split(beforeSlash, '.');
    valid := EveryPieceNonEmpty(splitDots);
    if ' ' in url || Contains(beforeSlash, "..") || '.' !in beforeSlash {
      valid := false;
    }
  }

  /** `"http://" + s` has its scheme removed by the first replace. */
  lemma StripHttp(s: string)
    requires !Contains(s, "https://")
    ensures StripScheme("http://" + s) == s
  {
    var u := "http://" + s;
    assert OccursAt(u, "http://", 0) by { assert u[0..7] == "http://"; }
    assert IndexOf(u, "http://") == Some(0);
    assert ReplaceFirst(u, "http://", "") == s by { assert u[7..] == s; }
  }

  /** `"https://" + s` is left alone by the first replace and loses its scheme in the second. */
  lemma StripHttps(s: string)
    requires !Contains(s, "http://")
    ensures StripScheme("https://" + s) == s
  {
    var u := "https://" + s;
    forall j: nat ensures !OccursAt(u, "http://", j) {
      if j < 8 && j + 7 <= |u| {
        // within the scheme no `h` is followed, four places on, by `:`
        if j == 0 {
          assert u[j..j + 7][4] == 's';
        } else {
          assert u[j..j + 7][0] == "https://"[j] != 'h';
        }
      } else if 8 <= j && OccursAt(u, "http://", j) {
        OccursInSuffix("https://", s, "http://", j);
      }
    }
    assert IndexOf(u, "http://") == None;
    assert OccursAt(u, "https://", 0) by { assert u[0..8] == "https://"; }
    assert IndexOf(u, "https://") == Some(0);
    assert ReplaceFirst(u, "https://", "") == s by { assert u[8..] == s; }
  }

  /**
   * For text holding neither scheme, adding either scheme in front does not
   * change the verdict.
   */
  lemma SchemePrefixKeepsValidity(s: string)
    requires !Contains(s, "http://") && !Contains(s, "https://")
    ensures IsValidURL("http://" + s) == IsValidURL(s)
    ensures IsValidURL("https://" + s) == IsValidURL(s)
  {
    StripHttp(s);
    StripHttps(s);
    assert StripScheme(s) == s;
    assert ' ' in "http://" + s <==> ' ' in s;
    assert ' ' in "https://" + s <==> ' ' in s;
  }

  /** Text without a colon holds neither scheme, so the replaces leave it alone. */
  lemma NoColonNoScheme(s: string)
    requires ':' !in s
    ensures !Contains(s, "http://") && !Contains(s, "https://")
    ensures StripScheme(s) == s
  {
    forall j: nat ensures !OccursAt(s, "http://", j) && !OccursAt(s, "https://", j) {
      if j + 7 <= |s| { assert s[j..j + 7][4] == s[j + 4]; }
      if j + 8 <= |s| { assert s[j..j + 8][5] == s[j + 5]; }
    }
  }

  /** Two non-empty dot-free labels joined by one dot are well separated. */
  lemma TwoLabels(a: string, b: string)
    requires |a| > 0 && |b| > 0 && '.' !in a && '.' !in b
    ensures WellSeparated(a + "." + b, '.') && '.' in a + "." + b
  {
    var s := a + "." + b;
    assert s[|a|] == '.';
    forall i | 0 <= i < |s| && s[i] == '.' ensures 0 < i < |s| - 1 && s[i + 1] != '.' {
      if i == |a| && i + 1 < |s| {
        assert s[i + 1] == b[0];
      }
    }
  }

  /** The authority is the longest slash-free prefix. */
  lemma AuthorityIsHost(u: string, host: string)
    requires StripScheme(u) == u
    requires host <= u && '/' !in host
    requires |host| < |u| ==> u[|host|] == '/'
    ensures Authority(u) == host
  {
  }

  /** A non-empty host label: no dot, slash, colon or space. */
  predicate IsLabel(x: string) {
    |x| > 0 && '.' !in x && '/' !in x && ':' !in x && ' ' !in x
  }

  /** Two non-empty labels joined by a dot make an accepted URL. */
  lemma TwoLabelHostAccepted(a: string, b: string)
    requires IsLabel(a) && IsLabel(b)
    ensures IsValidURL(a + "." + b)
  {
    var host := a + "." + b;
    TwoLabels(a, b);
    NoColonNoScheme(host);
    AuthorityIsHost(host, host);
  }

  /** A path after the first slash does not change the verdict on such a host. */
  lemma HostWithPathAccepted(a: string, b: string, path: string)
    requires IsLabel(a) && IsLabel(b)
    requires ':' !in path && ' ' !in path
    ensures IsValidURL(a + "." + b + "/" + path)
  {
    var host := a + "." + b;
    var u := host + "/" + path;
    TwoLabels(a, b);
    NoColonNoScheme(u);
    assert u[|host|] == '/';
    AuthorityIsHost(u, host);
  }

  /** Such a host is accepted behind either scheme too. */
  lemma SchemeHostAccepted(a: string, b: string)
    requires IsLabel(a) && IsLabel(b)
    ensures IsValidURL("http://" + (a + "." + b))
    ensures IsValidURL("https://" + (a + "." + b))
  {
    var host := a + "." + b;
    TwoLabelHostAccepted(a, b);
    NoColonNoScheme(host);
    SchemePrefixKeepsValidity(host);
  }

  /** An empty label between two dots is refused. */
  lemma EmptyLabelRefused()
    ensures !IsValidURL("foo..com")
  {
    var u := "foo..com";
    NoColonNoScheme(u);
    assert '/' !in u;
    AuthorityIsHost(u, u);
    assert u[3] == '.' && u[4] == '.';
  }

  /** A host without a dot is refused. */
  lemma NoDotRefused()
    ensures !IsValidURL("foo")
  {
    NoColonNoScheme("foo");
  }

  /**
   * A dot that only comes after the first slash does not count: a dot-free
   * host followed by a path is refused, whatever the path holds (`foo/bar.com`).
   */
  lemma DotAfterSlashRefused(host: string, path: string)
    requires IsLabel(host) && ':' !in path
    ensures !IsValidURL(host + "/" + path)
  {
    var u := host + "/" + path;
    NoColonNoScheme(u);
    assert u[..|host|] == host && u[|host|] == '/';
    AuthorityIsHost(u, host);
  }

  /** A URL with a space anywhere is refused. */
  lemma SpaceRefused(url: string)
    requires ' ' in url
    ensures !IsValidURL(url)
  {
  }
}
