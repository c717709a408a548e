/**
 Patching of the start manifest: every route whose file has captured CSS gets a
 stylesheet link for each captured file it does not link yet, appended in place.
 */
module ManifestPatch {
  import opened Wrappers
  import RouteCss
  import Sorting

  datatype Attrs = Attrs(rel: Option<string>, href: Option<string>, kind: Option<string>)

  datatype Asset = Asset(tag: string, attrs: Option<Attrs>)

  /** A manifest route. Its asset list is absent until something is added to it. */
  class Route {
    const filePath: Option<string>
    var assets: Option<seq<Asset>>

    constructor (filePath: Option<string>, assets: Option<seq<Asset>>)
      ensures this.filePath == filePath && this.assets == assets
    {
      this.filePath := filePath;
      this.assets := assets;
    }
  }

  function Href(cssFile: string): string {
    "/" + cssFile
  }

  function Link(cssFile: string): Asset {
    Asset("link", Some(Attrs(Some("stylesheet"), Some(Href(cssFile)), Some("text/css"))))
  }

  function AssetList(assets: Option<seq<Asset>>): seq<Asset> {
    if assets.Some? then assets.value else []
  }

  predicate HasHref(a: Asset, href: string) {
    a.attrs.Some? && a.attrs.value.href == Some(href)
  }

  predicate Links(assets: seq<Asset>, href: string) {
    exists a :: a in assets && HasHref(a, href)
  }

  lemma LinksOfHead(assets: seq<Asset>)
    requires assets != []
    ensures forall h :: Links(assets, h) <==> HasHref(assets[0], h) || Links(assets[1..], h)
  {
  }

  lemma LinksOfConcat(a: seq<Asset>, b: seq<Asset>)
    ensures forall h :: Links(a + b, h) <==> Links(a, h) || Links(b, h)
  {
  }

  ghost function LinksOf(files: seq<string>): (links: seq<Asset>)
    ensures |links| == |files| && forall i :: 0 <= i < |files| ==> links[i] == Link(files[i])
  {
    if files == [] then [] else LinksOf(files[..|files| - 1]) + [Link(files[|files| - 1])]
  }

  lemma LinksOfFiles(files: seq<string>, h: string)
    ensures Links(LinksOf(files), h) <==> exists f :: f in files && Href(f) == h
  {
    var n := LinksOf(files);
    if Links(n, h) {
      var i :| 0 <= i < |n| && HasHref(n[i], h);
      assert files[i] in files && Href(files[i]) == h;
    }
    if f :| f in files && Href(f) == h {
      var i :| 0 <= i < |files| && files[i] == f;
      assert n[i] in n && HasHref(n[i], h);
    }
  }

  /** The nonempty hrefs of the assets; missing attributes and empty hrefs are dropped. */
  function ExistingHrefs(assets: seq<Asset>): (hrefs: set<string>)
    ensures forall h :: h in hrefs <==> h != "" && Links(assets, h)
  {
    if assets == [] then {}
    else
      var rest := ExistingHrefs(assets[1..]);
      LinksOfHead(assets);
      if assets[0].attrs.Some? && assets[0].attrs.value.href.Some? && assets[0].attrs.value.href.value != ""
      then {assets[0].attrs.value.href.value} + rest else rest
  }

  /** The CSS files the patch is to link for a route file: none without a file path or without an entry. */
  function FilesFor(routeCss: map<string, set<string>>, filePath: Option<string>): set<string> {
    if filePath.Some? && filePath.value != "" && filePath.value in routeCss then routeCss[filePath.value] else {}
  }

  /** `added` lists, once each and in some order, exactly the files of `css` that `assets` does not link. */
  ghost predicate AreMissing(assets: seq<Asset>, css: set<string>, added: seq<string>) {
    && Sorting.NoDup(added)
    && forall f :: f in added <==> f in css && !Links(assets, Href(f))
  }

  /** `after` is `before` patched with `css`: nothing changes if nothing is missing, else the links are appended. */
  ghost predicate Patched(before: Option<seq<Asset>>, after: Option<seq<Asset>>, css: set<string>) {
    exists added :: AreMissing(AssetList(before), css, added)
      && after == if added == [] then before else Some(AssetList(before) + LinksOf(added))
  }

  /** The loop over one route's CSS files, in any enumeration order of the set. */
  method PatchRoute(route: Route, cssFiles: set<string>) returns (patched: bool)
    modifies route
    ensures Patched(old(route.assets), route.assets, cssFiles)
    ensures patched <==> route.assets != old(route.assets)
  {
    ghost var before := AssetList(route.assets);
    ghost var added: seq<string> := [];
    patched := false;
    var existingHrefs := ExistingHrefs(AssetList(route.assets));
    var todo := cssFiles;
    while todo != {}
      invariant todo <= cssFiles && Sorting.NoDup(added)
      invariant forall f :: f in added <==> f in cssFiles - todo && !Links(before, Href(f))
      invariant patched <==> added != []
      invariant route.assets == if added == [] then old(route.assets) else Some(before + LinksOf(added))
    {
      var cssFile :| cssFile in todo;
      todo := todo - {cssFile};
      if Href(cssFile) !in existingHrefs {
        assert (added + [cssFile])[..|added|] == added;
        assert before + LinksOf(added) + [Link(cssFile)] == before + LinksOf(added + [cssFile]);
        assert added == [] ==> before + [Link(cssFile)] == before + LinksOf(added + [cssFile]);
        route.assets := Some(AssetList(route.assets) + [Link(cssFile)]);
        added := added + [cssFile];
        patched := true;
      }
    }
    assert AreMissing(before, cssFiles, added);
    assert added != [] ==> |before + LinksOf(added)| > |before|;
  }

  lemma PatchedByNothing(assets: Option<seq<Asset>>)
    ensures Patched(assets, assets, {})
  {
    assert AreMissing(AssetList(assets), {}, []);
  }

  /** The `transform` hook on a parsed manifest. Its result says whether anything was rewritten. */
  method PatchManifest(routeCss: map<string, set<string>>, routes: seq<Route>) returns (patched: bool)
    requires forall i, j :: 0 <= i < j < |routes| ==> routes[i] != routes[j]
    modifies routes
    ensures forall r :: r in routes ==> Patched(old(r.assets), r.assets, FilesFor(routeCss, r.filePath))
    ensures patched <==> exists r :: r in routes && r.assets != old(r.assets)
  {
    patched := false;
    if |routeCss| == 0 {
      forall r | r in routes
        ensures Patched(r.assets, r.assets, FilesFor(routeCss, r.filePath))
      {
        PatchedByNothing(r.assets);
      }
      return;
    }
    for i := 0 to |routes|
      invariant forall j :: 0 <= j < i ==>
        Patched(old(routes[j].assets), routes[j].assets, FilesFor(routeCss, routes[j].filePath))
      invariant forall j :: i <= j < |routes| ==> routes[j].assets == old(routes[j].assets)
      invariant patched <==> exists j :: 0 <= j < i && routes[j].assets != old(routes[j].assets)
    {
      var route := routes[i];
      PatchedByNothing(route.assets);
      if route.filePath.None? || route.filePath.value == "" {
        continue;
      }
      if route.filePath.value !in routeCss || routeCss[route.filePath.value] == {} {
        continue;
      }
      var changed := PatchRoute(route, routeCss[route.filePath.value]);
      patched := patched || changed;
    }
  }

  /** Some asset already has the file's path as its href. */
  predicate LinksFile(assets: Option<seq<Asset>>, f: string) {
    assets.Some? && exists a :: a in assets.value && a.attrs.Some? && a.attrs.value.href == Some("/" + f)
  }

  /** The stylesheet links of the files, attribute by attribute, in their order. */
  predicate AreStylesheets(links: seq<Asset>, files: seq<string>) {
    |links| == |files| && forall i :: 0 <= i < |links| ==>
      links[i] == Asset("link", Some(Attrs(Some("stylesheet"), Some("/" + files[i]), Some("text/css"))))
  }

  /**
   What a patch is, written out: a list of the captured files that no asset links yet, once each, and
   behind the old assets one stylesheet link for each of them. Without such files nothing changes.
   */
  lemma PatchedIsAppended(before: Option<seq<Asset>>, after: Option<seq<Asset>>, css: set<string>)
      returns (added: seq<string>, links: seq<Asset>)
    requires Patched(before, after, css)
    ensures forall i, j :: 0 <= i < j < |added| ==> added[i] != added[j]
    ensures forall f :: f in added <==> f in css && !LinksFile(before, f)
    ensures AreStylesheets(links, added)
    ensures added == [] ==> after == before
    ensures added != [] ==> after == Some((if before.Some? then before.value else []) + links)
  {
    added :| AreMissing(AssetList(before), css, added)
      && after == if added == [] then before else Some(AssetList(before) + LinksOf(added));
    links := LinksOf(added);
    forall f
      ensures LinksFile(before, f) <==> Links(AssetList(before), "/" + f)
    {
      if LinksFile(before, f) {
        var a :| a in before.value && a.attrs.Some? && a.attrs.value.href == Some("/" + f);
        assert HasHref(a, "/" + f);
      }
    }
    assert forall f :: Href(f) == "/" + f;
  }

  /** A route without a file path, or with one for which nothing was captured, stays as it is. */
  lemma OtherRoutesStay(routeCss: map<string, set<string>>, filePath: Option<string>,
                        before: Option<seq<Asset>>, after: Option<seq<Asset>>)
    requires Patched(before, after, FilesFor(routeCss, filePath))
    requires filePath.None? || filePath.value == "" || filePath.value !in routeCss
    ensures after == before
  {
    var added, links := PatchedIsAppended(before, after, {});
    Sorting.NonemptyHasElement(added);
  }

  /** After the patch the hrefs are the old ones plus one per captured file, and the old assets are a prefix. */
  lemma PatchedHrefs(before: Option<seq<Asset>>, after: Option<seq<Asset>>, css: set<string>)
    requires Patched(before, after, css)
    ensures AssetList(before) <= AssetList(after)
    ensures forall h ::
      Links(AssetList(after), h) <==> Links(AssetList(before), h) || exists f :: f in css && Href(f) == h
  {
    var added :| AreMissing(AssetList(before), css, added)
      && after == if added == [] then before else Some(AssetList(before) + LinksOf(added));
    var b, n := AssetList(before), LinksOf(added);
    assert AssetList(after) == b + n;
    LinksOfConcat(b, n);
    forall h
      ensures Links(n, h) || Links(b, h) <==> Links(b, h) || exists f :: f in css && Href(f) == h
    {
      LinksOfFiles(added, h);
    }
  }

  lemma {:induction false} CountLink(files: seq<string>, f: string)
    requires Sorting.NoDup(files)
    ensures multiset(LinksOf(files))[Link(f)] == if f in files then 1 else 0
  {
    if files != [] {
      var k := |files| - 1;
      CountLink(files[..k], f);
      assert files == files[..k] + [files[k]];
      assert Href(f)[1..] == f && Href(files[k])[1..] == files[k];
    }
  }

  /** Each captured file ends up with exactly one more asset than before if it was missing, and none otherwise. */
  lemma PatchAddsOnce(before: Option<seq<Asset>>, after: Option<seq<Asset>>, css: set<string>, f: string)
    requires Patched(before, after, css) && f in css
    ensures multiset(AssetList(after))[Link(f)] ==
      multiset(AssetList(before))[Link(f)] + if Links(AssetList(before), Href(f)) then 0 else 1
  {
    var added :| AreMissing(AssetList(before), css, added)
      && after == if added == [] then before else Some(AssetList(before) + LinksOf(added));
    assert AssetList(after) == AssetList(before) + LinksOf(added);
    CountLink(added, f);
  }

  /** Patching a patched route again changes nothing, so a second run of the hook reports no rewrite. */
  lemma SecondPatchIsIdle(
      before: Option<seq<Asset>>, after: Option<seq<Asset>>, again: Option<seq<Asset>>, css: set<string>)
    requires Patched(before, after, css) && Patched(after, again, css)
    ensures again == after
  {
    PatchedHrefs(before, after, css);
    var added :| AreMissing(AssetList(after), css, added)
      && again == if added == [] then after else Some(AssetList(after) + LinksOf(added));
    assert forall f :: f in css ==> Links(AssetList(after), Href(f));
    Sorting.NonemptyHasElement(added);
  }

  method PatchTwice(routeCss: map<string, set<string>>, routes: seq<Route>) returns (first: bool, second: bool)
    requires forall i, j :: 0 <= i < j < |routes| ==> routes[i] != routes[j]
    modifies routes
    ensures !second
    ensures forall r :: r in routes ==> Patched(old(r.assets), r.assets, FilesFor(routeCss, r.filePath))
  {
    first := PatchManifest(routeCss, routes);
    label L:
    second := PatchManifest(routeCss, routes);
    forall r | r in routes
      ensures r.assets == old@L(r.assets)
    {
      SecondPatchIsIdle(old(r.assets), old@L(r.assets), r.assets, FilesFor(routeCss, r.filePath));
    }
  }

  lemma HrefIsInjective(css: string)
    ensures forall f :: Href(f) == Href(css) ==> f == css
  {
    forall f | Href(f) == Href(css)
      ensures f == css
    {
      assert Href(f)[1..] == f && Href(css)[1..] == css;
    }
  }

  /**
   Capture and patch together: a route with a file path links, after the patch, exactly what it linked
   before plus the CSS of every chunk reachable from any chunk split out of its file.
   */
  lemma RouteLinksReachableCss(bundle: RouteCss.Bundle, routeCss: map<string, set<string>>, filePath: string,
                               before: Option<seq<Asset>>, after: Option<seq<Asset>>, css: string)
    requires RouteCss.IsBundle(bundle) && filePath != ""
    requires RouteCss.Captured(RouteCss.Chunks(bundle), RouteCss.Entries(bundle), map[], routeCss)
    requires Patched(before, after, FilesFor(routeCss, Some(filePath)))
    ensures Links(AssetList(after), Href(css)) <==>
      || Links(AssetList(before), Href(css))
      || RouteCss.Contributes(RouteCss.Chunks(bundle), RouteCss.Entries(bundle), filePath, css)
  {
    var g, es := RouteCss.Chunks(bundle), RouteCss.Entries(bundle);
    PatchedHrefs(before, after, FilesFor(routeCss, Some(filePath)));
    HrefIsInjective(css);
    if RouteCss.Contributes(g, es, filePath, css) {
      assert RouteCss.IsRoute(es, filePath);
    }
  }
}
