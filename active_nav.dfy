/** The navigation highlighter, run once at load: every navigation link is
    first unmarked, then marked active when its `href` matches the current
    page's file name exactly, stands for the index page of an empty path, or
    (with its first `.html` removed) occurs inside the file name. */
module ActiveNav {
  import opened Wrappers
  import opened JsStrings

  const IndexPage := "index.html"
  const HtmlSuffix := ".html"

  /** `window.location.pathname.split('/').pop()`. */
  function CurrentFile(path: string): string {
    LastSegment(path, '/')
  }

  /** The match test the highlighter applies to one link. */
  function IsActive(currentFile: string, href: string): bool {
    currentFile == href ||
    (currentFile == "" && href == IndexPage) ||
    (currentFile != "" && Includes(currentFile, ReplaceFirst(href, HtmlSuffix, "")))
  }

  /** A path that ends in `/` (or is empty) names no file. */
  lemma DirectoryPath(path: string)
    requires path == [] || path[|path| - 1] == '/'
    ensures CurrentFile(path) == ""
  {
  }

  /** Without a file name only a link to the index page (or an empty link)
      is active. */
  lemma NoFileMeansIndex(href: string)
    ensures IsActive("", href) <==> href == "" || href == IndexPage
  {
  }

  /** The first `.html` of `stem + ".html"` is the appended one when `stem`
      holds none: a `.html` cannot straddle the join, since its only `.` is
      its first character. */
  lemma StripHtml(stem: string)
    requires !Contains(stem, HtmlSuffix)
    ensures ReplaceFirst(stem + HtmlSuffix, HtmlSuffix, "") == stem
  {
    var s := stem + HtmlSuffix;
    var n := |stem|;
    assert OccursAt(s, HtmlSuffix, n) by { assert s[n..n + 5] == HtmlSuffix; }
    forall j | 0 <= j < n ensures !OccursAt(s, HtmlSuffix, j) {
      if j + 5 <= n {
        assert s[j..j + 5] == stem[j..j + 5];
        assert !OccursAt(stem, HtmlSuffix, j);
      } else if j + 5 <= |s| {
        assert s[j..j + 5][n - j] == s[n] == '.';
        assert HtmlSuffix[n - j] != '.';
      }
    }
    ReplaceFirstSpec(s, HtmlSuffix, "", n);
    assert s[..n] == stem;
    assert s[n + 5..] == [];
  }

  /** For a page with a file name, a link `stem.html` (with no `.html` inside
      `stem`) is active exactly when the file name contains `stem`. */
  lemma StemRule(file: string, stem: string)
    requires file != "" && !Contains(stem, HtmlSuffix)
    ensures IsActive(file, stem + HtmlSuffix) <==> Contains(file, stem)
  {
    StripHtml(stem);
    IncludesSpec(file, stem);
    if file == stem + HtmlSuffix {
      assert OccursAt(file, stem, 0);
    }
  }

  /** For a page with a file name, a link without `.html` (such as `#contact`
      or `about`) keeps its `href` and is active exactly when the file name
      contains it. */
  lemma NoHtmlRule(file: string, href: string)
    requires file != "" && !Contains(href, HtmlSuffix)
    ensures IsActive(file, href) <==> Contains(file, href)
  {
    ReplaceFirstNoMatch(href, HtmlSuffix, "");
    IncludesSpec(file, href);
    if file == href {
      assert OccursAt(file, href, 0);
    }
  }

  /** The containment fallback is loose: on `projects.html` a link to
      `project.html` is active as well as the link to the page itself. */
  lemma SharedWordMismatch()
    ensures IsActive("projects.html", "project.html")
    ensures IsActive("projects.html", "projects.html")
  {
    var stem := "project";
    forall k | 0 <= k && k + 5 <= |stem| ensures !OccursAt(stem, HtmlSuffix, k) {
      assert stem[k..k + 5][0] == stem[k] != '.';
    }
    StemRule("projects.html", stem);
    assert stem + HtmlSuffix == "project.html";
    assert OccursAt("projects.html", stem, 0) by {
      assert "projects.html"[0..7] == stem;
    }
  }

  /** A link whose `href` is just `.html` is active on every page that has a
      file name: removing `.html` leaves the empty string, which every string
      contains. */
  lemma BareHtmlLink(file: string)
    requires file != ""
    ensures IsActive(file, HtmlSuffix)
  {
    ReplaceFirstSpec(HtmlSuffix, HtmlSuffix, "", 0);
    assert OccursAt(file, "", 0);
    IncludesSpec(file, "");
  }

  /** One link of the highlighter: unmark link `i`, then mark it when its
      `href` matches; no other link changes. */
  method MarkLink(currentFile: string, href: string, active: array<bool>, i: nat)
    requires i < active.Length
    modifies active
    ensures active[i] == IsActive(currentFile, href)
    ensures forall j :: 0 <= j < active.Length && j != i ==> active[j] == old(active[j])
  {
    active[i] := false;
    if IsActive(currentFile, href) {
      active[i] := true;
    }
  }

  /** The highlighter: `active[i]` is whether link `i` has the `active`
      class; every link is visited in turn, as the `forEach` does. */
  method HighlightActiveNav(path: string, hrefs: seq<string>, active: array<bool>)
    requires active.Length == |hrefs|
    modifies active
    ensures forall i :: 0 <= i < |hrefs| ==> active[i] == IsActive(LastSegment(path, '/'), hrefs[i])
  {
    var currentFile := LastSegment(path, '/');
    for i := 0 to active.Length
      invariant forall j :: 0 <= j < i ==> active[j] == IsActive(currentFile, hrefs[j])
    {
      MarkLink(currentFile, hrefs[i], active, i);
    }
  }
}
