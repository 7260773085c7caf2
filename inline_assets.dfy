/** The string helpers of the build step that inlines the bundled scripts and
    stylesheets into `index.html` (scripts/inline-assets.cjs): escaping the
    closing tags inside inlined code, turning a page URL into a path under
    `dist`, and the tests that pick out script and stylesheet URLs. The file
    reading and writing around them is not modelled. */
module InlineAssets {

  /** `t` occurs in `s`, at some offset. */
  predicate Occurs(s: string, t: string) {
    exists i :: 0 <= i <= |s| && t <= s[i..]
  }

  /** Occurrences of `t` in `s`, counted at every offset. */
  function CountAt(s: string, t: string): nat {
    if s == [] then 0 else (if t <= s then 1 else 0) + CountAt(s[1..], t)
  }

  /** A non-empty pattern whose first character does not recur in it: no two
      of its occurrences can overlap. */
  predicate Lead(t: string) {
    |t| > 0 && t[0] !in t[1..]
  }

  /** `s.replaceAll(pat, rep)` for a non-empty string pattern: scanning from
      the left, each occurrence of `pat` is replaced and the scan resumes
      after it. */
  function ReplaceAll(s: string, pat: string, rep: string): (r: string)
    requires pat != []
    ensures rep == pat ==> r == s
    ensures |pat| <= |rep| ==> |s| <= |r|
    decreases |s|
  {
    if |s| < |pat| then s
    else if pat <= s then rep + ReplaceAll(s[|pat|..], pat, rep)
    else [s[0]] + ReplaceAll(s[1..], pat, rep)
  }

  const ScriptClose: string := "</script>"
  const StyleClose: string := "</style>"
  const ScriptCloseEscaped: string := "<\\/script>"
  const StyleCloseEscaped: string := "<\\/style>"

  /** `escapeForHtml(text)` (scripts/inline-assets.cjs:7-13): first every
      `</script>`, then every `</style>`, gets a backslash after its `<`, so
      that inlined code cannot close the element that holds it. */
  function EscapeForHtml(text: string): (r: string)
    ensures !Occurs(r, ScriptClose) && !Occurs(r, StyleClose)
  {
    var once := ReplaceAll(text, ScriptClose, ScriptCloseEscaped);
    TagsAreSafe();
    NoneLeft(text, ScriptClose, ScriptCloseEscaped, ScriptClose);
    NoneLeft(once, StyleClose, StyleCloseEscaped, ScriptClose);
    NoneLeft(once, StyleClose, StyleCloseEscaped, StyleClose);
    ReplaceAll(once, StyleClose, StyleCloseEscaped)
  }

  /** The conditions under which replacing `pat` by `rep` can create no
      occurrence of `q`: `q`, `pat` and `rep` start with the same character,
      which recurs in neither `q` nor `rep`, and `rep` differs from `q` in its
      second character. */
  predicate Safe(pat: string, rep: string, q: string) {
    && pat != [] && Lead(q) && |q| >= 2 && |rep| >= 2
    && rep[0] == q[0] && pat[0] == q[0] && rep[1] != q[1] && q[0] !in rep[1..]
  }

  lemma TagsAreSafe()
    ensures Safe(ScriptClose, ScriptCloseEscaped, ScriptClose)
    ensures Safe(StyleClose, StyleCloseEscaped, StyleClose)
    ensures Safe(StyleClose, StyleCloseEscaped, ScriptClose)
    ensures Safe(ScriptClose, ScriptCloseEscaped, StyleClose)
    ensures Lead(StyleClose) && StyleClose[0] !in ScriptClose[1..]
    ensures Lead(ScriptClose) && ScriptClose[0] !in StyleClose[1..]
    ensures !(StyleClose <= ScriptClose) && !(ScriptClose <= StyleClose)
    ensures |ScriptCloseEscaped| == |ScriptClose| + 1 && |StyleCloseEscaped| == |StyleClose| + 1
  {
    assert ScriptClose[3] == 'c' && StyleClose[3] == 't';
  }

  /** Read back through a replacement: a prefix of the output that avoids
      the first character of `rep` was copied from the input. */
  lemma {:induction false} PrefixBack(s: string, pat: string, rep: string, w: string)
    requires pat != [] && rep != [] && rep[0] !in w && w <= ReplaceAll(s, pat, rep)
    ensures w <= s
    decreases |s|
  {
    if |s| >= |pat| && w != [] {
      MatchFront(s, pat, rep);
      if pat <= s {
        assert false;
      } else {
        var r := ReplaceAll(s[1..], pat, rep);
        assert ReplaceAll(s, pat, rep) == [s[0]] + r;
        assert w[1..] <= r;
        PrefixBack(s[1..], pat, rep, w[1..]);
      }
    }
  }

  /** A replacement at the front of the text puts `rep` first. */
  lemma MatchFront(s: string, pat: string, rep: string)
    ensures pat != [] && rep != [] && |s| >= |pat| && pat <= s ==> ReplaceAll(s, pat, rep)[0] == rep[0]
  {
  }

  /** And forwards: a prefix of the input that avoids the first character of
      `pat` is copied to the output. */
  lemma {:induction false} PrefixForward(s: string, pat: string, rep: string, w: string)
    requires pat != [] && pat[0] !in w && w <= s
    ensures w <= ReplaceAll(s, pat, rep)
    decreases |s|
  {
    if |s| >= |pat| && w != [] {
      assert s[0] == w[0];
      var r := ReplaceAll(s[1..], pat, rep);
      assert ReplaceAll(s, pat, rep) == [s[0]] + r;
      PrefixForward(s[1..], pat, rep, w[1..]);
    }
  }

  /** An occurrence of a lead pattern `q` at the front of a replacement's
      output is the image of one at the front of its input, and conversely. */
  lemma FrontOccurrence(s: string, pat: string, rep: string, q: string)
    requires Safe(pat, rep, q) && s != [] && !(|s| >= |pat| && pat <= s)
    ensures q <= ReplaceAll(s, pat, rep) <==> q <= s
  {
    var o := ReplaceAll(s, pat, rep);
    var r := ReplaceAll(s[1..], pat, rep);
    assert o == [s[0]] + r;
    if q <= o {
      assert q[1..] <= r;
      PrefixBack(s[1..], pat, rep, q[1..]);
    }
    if q <= s {
      assert q[1..] <= s[1..];
      PrefixForward(s[1..], pat, rep, q[1..]);
    }
  }

  /** No offset inside a replacement text starts an occurrence of `q`. */
  lemma NoneInRep(rep: string, rest: string, q: string, i: nat)
    requires Lead(q) && |q| >= 2 && |rep| >= 2 && rep[0] == q[0] && rep[1] != q[1] && q[0] !in rep[1..]
    requires i < |rep|
    ensures !(q <= (rep + rest)[i..])
  {
    if i == 0 {
      assert (rep + rest)[i..][1] == rep[1];
    } else {
      assert (rep + rest)[i..][0] == rep[1..][i - 1];
    }
  }

  /** Counting over a prefix none of whose offsets starts an occurrence. */
  lemma {:induction false} CountSkip(a: string, b: string, q: string)
    requires forall i :: 0 <= i < |a| ==> !(q <= (a + b)[i..])
    ensures CountAt(a + b, q) == CountAt(b, q)
    decreases |a|
  {
    if a != [] {
      assert (a + b)[0..] == a + b;
      assert (a + b)[1..] == a[1..] + b;
      forall i | 0 <= i < |a[1..]| ensures !(q <= (a[1..] + b)[i..]) {
        assert (a[1..] + b)[i..] == (a + b)[i + 1..];
      }
      CountSkip(a[1..], b, q);
    }
  }

  /** The replacement leaves the occurrences of `q` untouched when `q` is not
      the pattern itself and the two cannot overlap. */
  lemma {:induction false} CountKept(s: string, pat: string, rep: string, q: string)
    requires Safe(pat, rep, q) && pat[0] !in pat[1..] && !(q <= pat) && !(pat <= q)
    ensures CountAt(ReplaceAll(s, pat, rep), q) == CountAt(s, q)
    decreases |s|
  {
    if |s| >= |pat| {
      var o := ReplaceAll(s, pat, rep);
      if pat <= s {
        var tail := s[|pat|..];
        var r := ReplaceAll(tail, pat, rep);
        CountKept(tail, pat, rep, q);
        forall i | 0 <= i < |rep| ensures !(q <= (rep + r)[i..]) {
          NoneInRep(rep, r, q, i);
        }
        CountSkip(rep, r, q);
        assert s == s[..|pat|] + tail;
        forall i | 0 <= i < |pat| ensures !(q <= (s[..|pat|] + tail)[i..]) {
          if i > 0 {
            assert s[i] == pat[1..][i - 1];
          }
        }
        CountSkip(s[..|pat|], tail, q);
      } else {
        CountKept(s[1..], pat, rep, q);
        FrontOccurrence(s, pat, rep, q);
        assert o == [s[0]] + ReplaceAll(s[1..], pat, rep);
        assert o[1..] == ReplaceAll(s[1..], pat, rep);
      }
    }
  }

  /** After replacing `pat`, `q` does not occur, provided `q` is `pat` or did
      not occur before. */
  lemma {:induction false} NoneLeft(s: string, pat: string, rep: string, q: string)
    requires Safe(pat, rep, q) && (q == pat || !Occurs(s, q))
    ensures !Occurs(ReplaceAll(s, pat, rep), q)
    decreases |s|
  {
    var o := ReplaceAll(s, pat, rep);
    if |s| < |pat| {
      forall i | 0 <= i <= |s| ensures !(q <= s[i..]) {
        if q == pat {
          assert |s[i..]| < |q|;
        }
      }
    } else if pat <= s {
      var tail := s[|pat|..];
      if q != pat {
        forall i | 0 <= i <= |tail| ensures !(q <= tail[i..]) {
          assert tail[i..] == s[|pat| + i..];
        }
      }
      NoneLeft(tail, pat, rep, q);
      var r := ReplaceAll(tail, pat, rep);
      forall i | 0 <= i <= |o| ensures !(q <= o[i..]) {
        if i < |rep| {
          NoneInRep(rep, r, q, i);
        } else {
          assert o[i..] == r[i - |rep|..];
        }
      }
    } else {
      if q != pat {
        forall i | 0 <= i <= |s[1..]| ensures !(q <= s[1..][i..]) {
          assert s[1..][i..] == s[i + 1..];
        }
      }
      NoneLeft(s[1..], pat, rep, q);
      FrontOccurrence(s, pat, rep, q);
      var r := ReplaceAll(s[1..], pat, rep);
      assert o == [s[0]] + r;
      forall i | 0 <= i <= |o| ensures !(q <= o[i..]) {
        if i == 0 {
          assert o[0..] == o && s[0..] == s;
        } else {
          assert o[i..] == r[i - 1..];
        }
      }
    }
  }

  /** Text in which the pattern does not occur passes through unchanged. */
  lemma {:induction false} ReplaceAbsent(s: string, pat: string, rep: string)
    requires pat != [] && !Occurs(s, pat)
    ensures ReplaceAll(s, pat, rep) == s
    decreases |s|
  {
    if |s| >= |pat| {
      assert s[0..] == s;
      forall i | 0 <= i <= |s[1..]| ensures !(pat <= s[1..][i..]) {
        assert s[1..][i..] == s[i + 1..];
      }
      ReplaceAbsent(s[1..], pat, rep);
    }
  }

  /** A replacement one character longer than a non-overlapping pattern adds
      exactly one character per occurrence. */
  lemma {:induction false} ReplaceLength(s: string, pat: string, rep: string)
    requires Lead(pat) && |rep| == |pat| + 1
    ensures |ReplaceAll(s, pat, rep)| == |s| + CountAt(s, pat)
    decreases |s|
  {
    if |s| >= |pat| {
      if pat <= s {
        var tail := s[|pat|..];
        ReplaceLength(tail, pat, rep);
        assert s[1..] == s[1..|pat|] + tail;
        forall i | 0 <= i < |pat| - 1 ensures !(pat <= (s[1..|pat|] + tail)[i..]) {
          assert (s[1..|pat|] + tail)[i] == pat[1..][i];
        }
        CountSkip(s[1..|pat|], tail, pat);
      } else {
        ReplaceLength(s[1..], pat, rep);
      }
    } else if s != [] {
      CountTooShort(s, pat);
    }
  }

  lemma {:induction false} CountTooShort(s: string, q: string)
    requires |s| < |q|
    ensures CountAt(s, q) == 0
    decreases |s|
  {
    if s != [] {
      CountTooShort(s[1..], q);
    }
  }

  /** Text with neither closing tag is left exactly as it is. */
  lemma EscapeIdentity(text: string)
    requires !Occurs(text, ScriptClose) && !Occurs(text, StyleClose)
    ensures EscapeForHtml(text) == text
  {
    ReplaceAbsent(text, ScriptClose, ScriptCloseEscaped);
    ReplaceAbsent(text, StyleClose, StyleCloseEscaped);
  }

  /** Escaping adds exactly one backslash per closing tag of the input. */
  lemma EscapeLength(text: string)
    ensures |EscapeForHtml(text)| == |text| + CountAt(text, ScriptClose) + CountAt(text, StyleClose)
  {
    TagsAreSafe();
    var t := ReplaceAll(text, ScriptClose, ScriptCloseEscaped);
    ReplaceLength(text, ScriptClose, ScriptCloseEscaped);
    ReplaceLength(t, StyleClose, StyleCloseEscaped);
    CountKept(text, ScriptClose, ScriptCloseEscaped, StyleClose);
  }

  /** `s.split(c)[0]`: everything before the first `c`, or all of `s`. It
      is the longest prefix of `s` without `c`. */
  function BeforeFirst(s: string, c: char): (r: string)
    ensures r <= s && c !in r
    ensures |r| < |s| ==> s[|r|] == c
  {
    if s == [] then []
    else if s[0] == c then []
    else [s[0]] + BeforeFirst(s[1..], c)
  }

  /** The URL with its query and fragment cut off
      (scripts/inline-assets.cjs:16): a prefix of the URL with neither `?` nor
      `#`. */
  function CleanUrl(url: string): (r: string)
    ensures r <= url && '?' !in r && '#' !in r
  {
    BeforeFirst(BeforeFirst(url, '?'), '#')
  }

  /** Cutting at a character the text lacks keeps it whole. */
  lemma {:induction false} BeforeFirstAbsent(s: string, c: char)
    requires c !in s
    ensures BeforeFirst(s, c) == s
  {
    if s != [] {
      assert s == [s[0]] + s[1..];
      BeforeFirstAbsent(s[1..], c);
    }
  }

  /** Cleaning a cleaned URL changes nothing, and a URL with neither `?` nor
      `#` is already clean. */
  lemma CleanUrlIdempotent(url: string)
    ensures CleanUrl(CleanUrl(url)) == CleanUrl(url)
    ensures '?' !in url && '#' !in url ==> CleanUrl(url) == url
  {
    var c := CleanUrl(url);
    BeforeFirstAbsent(c, '?');
    BeforeFirstAbsent(c, '#');
    if '?' !in url && '#' !in url {
      BeforeFirstAbsent(url, '?');
      BeforeFirstAbsent(url, '#');
    }
  }

  /** `path.join(dir, rel)`, without its normalisation of `.` and `..`. */
  function Join(dir: string, rel: string): string {
    dir + "/" + rel
  }

  /** `toFsPathFromHtmlUrl(url)` (scripts/inline-assets.cjs:15-19): the
      cleaned URL, less one leading `/`, under the `dist` directory. */
  function ToFsPath(dist: string, url: string): (r: string)
    ensures var c := CleanUrl(url);
            && dist + "/" <= r
            && (|c| > 0 && c[0] == '/' ==> r[|dist| + 1..] == c[1..])
            && (|c| == 0 || c[0] != '/' ==> r[|dist| + 1..] == c)
            && '?' !in r[|dist| + 1..] && '#' !in r[|dist| + 1..]
  {
    var clean := CleanUrl(url);
    var rel := if |clean| > 0 && clean[0] == '/' then clean[1..] else clean;
    assert '?' !in rel && '#' !in rel;
    Join(dist, rel)
  }

  /** A root-relative URL and the same URL without its leading `/` name the
      same file. */
  lemma LeadingSlashDropped(dist: string, url: string)
    requires url == [] || url[0] != '/'
    ensures ToFsPath(dist, "/" + url) == ToFsPath(dist, url)
  {
    var u := "/" + url;
    assert u[1..] == url;
    assert BeforeFirst(u, '?') == "/" + BeforeFirst(url, '?');
    assert BeforeFirst(BeforeFirst(u, '?'), '#') == "/" + CleanUrl(url);
    assert CleanUrl(url) <= url;
  }

  /** `url.endsWith(ext) || url.includes(ext + '?')`: the test that collects
      script URLs with `.js` (scripts/inline-assets.cjs:41, 55) and stylesheet
      URLs with `.css` (scripts/inline-assets.cjs:48). */
  predicate IsAssetUrl(url: string, ext: string)
    ensures IsAssetUrl(url, ext) ==> Occurs(url, ext)
  {
    OccursShorter(url, ext, "?");
    assert |ext| <= |url| && url[|url| - |ext|..] == ext ==> ext <= url[|url| - |ext|..];
    (|ext| <= |url| && url[|url| - |ext|..] == ext) || Occurs(url, ext + "?")
  }

  /** Where `t + u` occurs, `t` occurs. */
  lemma OccursShorter(s: string, t: string, u: string)
    ensures Occurs(s, t + u) ==> Occurs(s, t)
  {
    if Occurs(s, t + u) {
      var i :| 0 <= i <= |s| && t + u <= s[i..];
      assert t <= s[i..];
    }
  }

  /** A plain asset URL and the same URL with a query string, for instance a
      cache-busting version, are both collected, and both clean to the plain
      path. */
  lemma VersionedAssetAccepted(path: string, ext: string, query: string)
    requires '?' !in path + ext && '#' !in path + ext
    ensures IsAssetUrl(path + ext, ext) && CleanUrl(path + ext) == path + ext
    ensures IsAssetUrl(path + ext + "?" + query, ext) && CleanUrl(path + ext + "?" + query) == path + ext
  {
    var plain := path + ext;
    var url := plain + "?" + query;
    assert plain[|plain| - |ext|..] == ext;
    assert url[|path|..] == ext + "?" + query;
    CleanUrlIdempotent(plain);
    BeforeFirstSplit(plain, "?" + query, '?');
    BeforeFirstAbsent(plain, '#');
    assert url == plain + ("?" + query);
  }

  /** Cutting at the first `c`, when it follows `a`, gives `a`. */
  lemma {:induction false} BeforeFirstSplit(a: string, b: string, c: char)
    requires c !in a && b != [] && b[0] == c
    ensures BeforeFirst(a + b, c) == a
  {
    if a != [] {
      assert (a + b)[1..] == a[1..] + b;
      BeforeFirstSplit(a[1..], b, c);
    } else {
      assert a + b == b;
    }
  }
}
