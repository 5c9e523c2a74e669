/** Identifier resolution from store pages: `android_app_id`, `android_similar_apps` and
    `ios_app_id`. A fetched and parsed page is given as the `href`s of the anchors inside each
    matching result `<div>`, one sequence per div, in document order. */
module Links {
  import opened Outcomes
  import Text

  const AndroidDetailsPrefix: string := "/store/apps/details?id="
  const IosAppPrefix: string := "https://apps.apple.com/gb/app/"
  const IosIdMarker: string := "id"
  const Placeholder: string := "#"
  /** An Android search result div contributes its first anchor, an iOS one its first ten. */
  const AndroidAnchorsPerDiv: nat := 1
  const IosAnchorsPerDiv: nat := 10

  /** Python's `anchors[:n]`, or all anchors when there is no limit. */
  function Slice(anchors: seq<string>, limit: Option<nat>): (r: seq<string>)
    ensures r <= anchors
    ensures limit.Some? ==> |r| == if limit.value < |anchors| then limit.value else |anchors|
    ensures limit.None? ==> r == anchors
  {
    if limit.Some? && limit.value < |anchors| then anchors[..limit.value] else anchors
  }

  /** The links of divs, each sliced to the limit, in document order. */
  function Harvest(divs: seq<seq<string>>, limit: Option<nat>): (r: seq<string>)
    ensures forall l :: l in r <==> exists d | 0 <= d < |divs| :: l in Slice(divs[d], limit)
  {
    if divs == [] then []
    else
      var n := |divs| - 1;
      assert forall d | 0 <= d < n :: divs[..n][d] == divs[d];
      Harvest(divs[..n], limit) + Slice(divs[n], limit)
  }

  /** The nested loops that fill `links`: for each div, for each of its (sliced) anchors,
      append the `href`. */
  method CollectLinks(divs: seq<seq<string>>, limit: Option<nat>) returns (links: seq<string>)
    ensures links == Harvest(divs, limit)
  {
    links := [];
    for d := 0 to |divs|
      invariant links == Harvest(divs[..d], limit)
    {
      var taken := Slice(divs[d], limit);
      ghost var before := links;
      for j := 0 to |taken|
        invariant links == before + taken[..j]
      {
        links := links + [taken[j]];
      }
      assert taken[..|taken|] == taken;
      assert divs[..d + 1][..d] == divs[..d];
    }
    assert divs[..|divs|] == divs;
  }

  /** With one anchor per div, the harvest is empty exactly when every div is. */
  lemma {:induction false} HarvestEmpty(divs: seq<seq<string>>)
    ensures Harvest(divs, Some(1)) == [] <==> forall i | 0 <= i < |divs| :: divs[i] == []
    decreases |divs|
  {
    if divs != [] {
      var init := divs[..|divs| - 1];
      var last := divs[|divs| - 1];
      var tail := Slice(last, Some(1));
      assert Harvest(divs, Some(1)) == Harvest(init, Some(1)) + tail;
      assert tail == [] <==> last == [];
      HarvestEmpty(init);
      assert forall i | 0 <= i < |init| :: init[i] == divs[i];
    }
  }

  /** With one anchor per div, a non-empty harvest starts with the first anchor of the first
      non-empty div. */
  lemma {:induction false} HarvestFirstAnchor(divs: seq<seq<string>>)
    requires Harvest(divs, Some(1)) != []
    ensures exists i | 0 <= i < |divs| ::
      divs[i] != [] && (forall j | 0 <= j < i :: divs[j] == []) &&
      Harvest(divs, Some(1))[0] == divs[i][0]
    decreases |divs|
  {
    var init := divs[..|divs| - 1];
    var last := divs[|divs| - 1];
    var h := Harvest(init, Some(1));
    var tail := Slice(last, Some(1));
    var whole := Harvest(divs, Some(1));
    assert whole == h + tail;
    assert forall i | 0 <= i < |init| :: init[i] == divs[i];
    if h != [] {
      HarvestFirstAnchor(init);
      var i :| 0 <= i < |init| && init[i] != [] && (forall j | 0 <= j < i :: init[j] == []) &&
        h[0] == init[i][0];
      assert whole[0] == h[0];
      assert divs[i] != [] && (forall j | 0 <= j < i :: divs[j] == []) && whole[0] == divs[i][0];
    } else {
      HarvestEmpty(init);
      assert whole == tail && last != [] && tail[0] == last[0];
      assert forall j | 0 <= j < |divs| - 1 :: divs[j] == [];
      assert divs[|divs| - 1] != [] && whole[0] == divs[|divs| - 1][0];
    }
  }

  /** `android_app_id`: the first anchor of each search result div, with every copy of the
      details prefix deleted; the first of them is the app id. No link at all is the
      IndexError of `links[0]`. */
  method AndroidAppId(divs: seq<seq<string>>) returns (r: Result<string>)
    ensures r.Failure? <==> forall i | 0 <= i < |divs| :: divs[i] == []
    ensures r.Failure? ==> r.error == NoSearchResult
    ensures r.Success? ==>
      exists i | 0 <= i < |divs| ::
        divs[i] != [] && (forall j | 0 <= j < i :: divs[j] == []) &&
        r.value == Text.DeleteAll(divs[i][0], AndroidDetailsPrefix)
  {
    var links := CollectLinks(divs, Some(AndroidAnchorsPerDiv));
    var ids := seq(|links|, k requires 0 <= k < |links| => Text.DeleteAll(links[k], AndroidDetailsPrefix));
    HarvestEmpty(divs);
    if |ids| == 0 {
      return Failure(NoSearchResult);
    }
    HarvestFirstAnchor(divs);
    return Success(ids[0]);
  }

  /** A details link whose package name has no '/' yields exactly that package name. */
  lemma AndroidIdOfDetailsLink(package: string)
    requires '/' !in package
    ensures Text.DeleteAll(AndroidDetailsPrefix + package, AndroidDetailsPrefix) == package
  {
    assert AndroidDetailsPrefix[0] == '/';
    Text.NoCharNoMatch(package, AndroidDetailsPrefix, '/');
    Text.DeleteAllLeading(AndroidDetailsPrefix, package);
  }

  predicate NoDuplicates(s: seq<string>)
  {
    forall i, j | 0 <= i < j < |s| :: s[i] != s[j]
  }

  /** `android_similar_apps`: every anchor of every similar-app div, de-duplicated with `set`,
      filtered to those containing the details prefix, which is deleted. `visited` is the
      order in which the set was iterated, which Python leaves unspecified: each distinct
      matching link appears in it exactly once, and the ids follow it. With no matching link
      the one-column frame cannot be built. */
  method SimilarApps(divs: seq<seq<string>>) returns (r: Result<seq<string>>, ghost visited: seq<string>)
    ensures NoDuplicates(visited)
    ensures forall l :: l in visited <==> l in Harvest(divs, None) && Text.Contains(l, AndroidDetailsPrefix)
    ensures r.Failure? <==> forall l | l in Harvest(divs, None) :: !Text.Contains(l, AndroidDetailsPrefix)
    ensures r.Failure? ==> r.error == NoSimilarApps
    ensures r.Success? ==>
      |r.value| == |visited| &&
      forall k | 0 <= k < |visited| :: r.value[k] == Text.DeleteAll(visited[k], AndroidDetailsPrefix)
  {
    var links := CollectLinks(divs, None);
    var distinct := set l | l in links;
    var matching: seq<string> := [];
    visited := [];
    var rest := distinct;
    while rest != {}
      invariant rest <= distinct
      invariant matching == visited
      invariant NoDuplicates(visited)
      invariant forall l :: l in visited ==> l in distinct && l !in rest
      invariant forall l :: l in visited <==> l in distinct - rest && Text.Contains(l, AndroidDetailsPrefix)
      decreases rest
    {
      var l :| l in rest;
      if Text.Contains(l, AndroidDetailsPrefix) {
        matching := matching + [l];
        visited := visited + [l];
      }
      rest := rest - {l};
    }
    if matching == [] {
      return Failure(NoSimilarApps), visited;
    }
    assert matching[0] in visited;
    var ids := seq(|matching|, k requires 0 <= k < |matching| => Text.DeleteAll(matching[k], AndroidDetailsPrefix));
    return Success(ids), visited;
  }

  /** One row of the iOS candidate table: the app slug and, when the link had a '/', its id. */
  datatype Candidate = Candidate(app: string, id: Option<string>)

  /** `[l for l in links if l != '#']`: the links with every placeholder removed, in order. */
  function WithoutPlaceholders(links: seq<string>): (r: seq<string>)
    ensures multiset(r) == multiset(links)[Placeholder := 0]
    ensures Placeholder !in r
    ensures Placeholder !in links ==> r == links
  {
    if links == [] then []
    else if links[0] == Placeholder then
      assert links == [links[0]] + links[1..];
      WithoutPlaceholders(links[1..])
    else
      assert links == [links[0]] + links[1..];
      [links[0]] + WithoutPlaceholders(links[1..])
  }

  /** `links[i]` is the first link that is not a placeholder. */
  predicate FirstRealLink(links: seq<string>, i: int)
  {
    0 <= i < |links| && links[i] != Placeholder && forall j | 0 <= j < i :: links[j] == Placeholder
  }

  /** Removing placeholders works piece by piece, so the kept links stay in source order. */
  lemma {:induction false} WithoutPlaceholdersAppend(a: seq<string>, b: seq<string>)
    ensures WithoutPlaceholders(a + b) == WithoutPlaceholders(a) + WithoutPlaceholders(b)
    decreases |a|
  {
    if a == [] {
      assert a + b == b;
    } else {
      assert (a + b)[0] == a[0] && (a + b)[1..] == a[1..] + b;
      WithoutPlaceholdersAppend(a[1..], b);
    }
  }

  /** The first kept link is the first link that is not a placeholder. */
  lemma {:induction false} WithoutPlaceholdersFirst(links: seq<string>)
    requires WithoutPlaceholders(links) != []
    ensures exists i :: FirstRealLink(links, i) && WithoutPlaceholders(links)[0] == links[i]
    decreases |links|
  {
    if links[0] != Placeholder {
      assert FirstRealLink(links, 0) && WithoutPlaceholders(links)[0] == links[0];
    } else {
      var tail := links[1..];
      WithoutPlaceholdersFirst(tail);
      var i :| FirstRealLink(tail, i) && WithoutPlaceholders(tail)[0] == tail[i];
      assert links[i + 1] == tail[i];
      assert forall j | 1 <= j < i + 1 :: links[j] == tail[j - 1];
      assert FirstRealLink(links, i + 1);
    }
  }

  /** One iOS link after the two `replace` comprehensions. */
  function CleanIosLink(link: string): (r: string)
    ensures |r| <= |link|
    ensures !Text.Contains(link, IosAppPrefix) && !Text.Contains(link, IosIdMarker) ==> r == link
  {
    Text.DeleteAll(Text.DeleteAll(link, IosAppPrefix), IosIdMarker)
  }

  /** The most pieces any link splits into on '/': the column count of `str.split(expand=True)`. */
  function Width(links: seq<string>): (w: nat)
    ensures forall k | 0 <= k < |links| :: |Text.Split(links[k], '/')| <= w
    ensures links != [] ==> exists k | 0 <= k < |links| :: |Text.Split(links[k], '/')| == w
    decreases |links|
  {
    if links == [] then 0
    else
      var here := |Text.Split(links[0], '/')|;
      var rest := Width(links[1..]);
      assert forall k | 1 <= k < |links| :: links[k] == links[1..][k - 1];
      if here >= rest then here else rest
  }

  /** The candidate row of one link that splits into at most two pieces. */
  function CandidateOf(link: string): (c: Candidate)
    requires |Text.Split(link, '/')| <= 2
    ensures '/' !in c.app && (c.id.Some? ==> '/' !in c.id.value)
    ensures link == c.app + (if c.id.Some? then "/" + c.id.value else "")
  {
    var parts := Text.Split(link, '/');
    if |parts| == 1 then Candidate(parts[0], None)
    else
      assert Text.Join(parts[1..], '/') == parts[1];
      Candidate(parts[0], Some(parts[1]))
  }

  /** `app_id_df[['app', 'id']] = app_id_df[0].str.split('/', expand = True)`: a frame of no
      links has no column 0 (KeyError); otherwise the split must give exactly two columns
      (ValueError), and a link without '/' leaves its id missing. */
  function CandidateTable(cleaned: seq<string>): (r: Result<seq<Candidate>>)
    ensures r.Success? <==> cleaned != [] && Width(cleaned) == 2
    ensures cleaned == [] ==> r == Failure(NoCandidateColumn)
    ensures cleaned != [] && Width(cleaned) != 2 ==> r == Failure(CandidateWidthMismatch(Width(cleaned)))
    ensures r.Success? ==>
      |r.value| == |cleaned| &&
      forall k | 0 <= k < |cleaned| ::
        '/' !in r.value[k].app && (r.value[k].id.Some? ==> '/' !in r.value[k].id.value) &&
        cleaned[k] == r.value[k].app + (if r.value[k].id.Some? then "/" + r.value[k].id.value else "")
  {
    if cleaned == [] then Failure(NoCandidateColumn)
    else if Width(cleaned) != 2 then Failure(CandidateWidthMismatch(Width(cleaned)))
    else Success(seq(|cleaned|, k requires 0 <= k < |cleaned| => CandidateOf(cleaned[k])))
  }

  /** The cleaned links of an iOS search page, before they are split. */
  function IosCleanedLinks(divs: seq<seq<string>>): seq<string>
  {
    var kept := WithoutPlaceholders(Harvest(divs, Some(IosAnchorsPerDiv)));
    seq(|kept|, k requires 0 <= k < |kept| => CleanIosLink(kept[k]))
  }

  /** The first cleaned iOS link comes from the first collected link that is not a
      placeholder, in document order. */
  lemma IosFirstCleanedLink(divs: seq<seq<string>>)
    requires IosCleanedLinks(divs) != []
    ensures exists i ::
      FirstRealLink(Harvest(divs, Some(IosAnchorsPerDiv)), i) &&
      IosCleanedLinks(divs)[0] == CleanIosLink(Harvest(divs, Some(IosAnchorsPerDiv))[i])
  {
    var h := Harvest(divs, Some(IosAnchorsPerDiv));
    var kept := WithoutPlaceholders(h);
    WithoutPlaceholdersFirst(h);
    var i :| FirstRealLink(h, i) && kept[0] == h[i];
    assert IosCleanedLinks(divs)[0] == CleanIosLink(kept[0]);
  }

  /** `ios_app_id`: up to ten anchors per result div, placeholders dropped, the store prefix and
      every "id" deleted, split on '/' into the candidate table; the id of the first row is the
      app id. */
  method IosAppId(divs: seq<seq<string>>) returns (r: Result<(seq<Candidate>, Option<string>)>)
    ensures r.Success? <==> CandidateTable(IosCleanedLinks(divs)).Success?
    ensures r.Failure? ==> r.error == CandidateTable(IosCleanedLinks(divs)).error
    ensures r.Success? ==>
      r.value.0 == CandidateTable(IosCleanedLinks(divs)).value &&
      r.value.0 != [] && r.value.1 == r.value.0[0].id
    ensures r.Success? ==>
      var first := r.value.0[0];
      exists i ::
        FirstRealLink(Harvest(divs, Some(IosAnchorsPerDiv)), i) &&
        CleanIosLink(Harvest(divs, Some(IosAnchorsPerDiv))[i]) ==
          first.app + (if first.id.Some? then "/" + first.id.value else "")
  {
    var links := CollectLinks(divs, Some(IosAnchorsPerDiv));
    links := WithoutPlaceholders(links);
    links := seq(|links|, k requires 0 <= k < |links| => Text.DeleteAll(links[k], IosAppPrefix));
    links := seq(|links|, k requires 0 <= k < |links| => Text.DeleteAll(links[k], IosIdMarker));
    assert links == IosCleanedLinks(divs);
    var table := CandidateTable(links);
    if table.Failure? {
      return Failure(table.error);
    }
    IosFirstCleanedLink(divs);
    return Success((table.value, table.value[0].id));
  }

  /** A store link `https://apps.apple.com/gb/app/<slug>/id<digits>` whose slug has no '/' and
      no "id" cleans to `<slug>/<digits>`. */
  lemma IosStoreLinkCleaned(slug: string, digits: string)
    requires '/' !in slug && !Text.Contains(slug, IosIdMarker)
    requires forall k | 0 <= k < |digits| :: '0' <= digits[k] <= '9'
    ensures CleanIosLink(IosAppPrefix + slug + "/id" + digits) == slug + "/" + digits
  {
    var rest := slug + "/id" + digits;
    assert '/' !in digits;
    OnlySlash(slug, "id" + digits);
    assert rest == slug + "/" + ("id" + digits);
    assert IosAppPrefix + slug + "/id" + digits == IosAppPrefix + rest;
    Text.DeleteAllLeading(IosAppPrefix, rest);
    var head := slug + "/";
    assert rest == head + ("id" + digits);
    forall i: nat | i < |head| ensures !Text.OccursAt(rest, IosIdMarker, i) {
      NoIdAt(slug, digits, i);
    }
    Text.DeleteAllKeepsHead(head, "id" + digits, IosIdMarker);
    Text.DeleteAllLeading(IosIdMarker, digits);
    assert 'i' in IosIdMarker;
    Text.NoCharNoMatch(digits, IosIdMarker, 'i');
  }

  /** No "id" starts inside `slug + "/"` when the slug has none. */
  lemma NoIdAt(slug: string, digits: string, i: nat)
    requires !Text.Contains(slug, IosIdMarker) && i <= |slug|
    ensures !Text.OccursAt(slug + "/id" + digits, IosIdMarker, i)
  {
    var rest := slug + "/id" + digits;
    if i + 2 <= |slug| {
      assert rest[i..i + 2] == slug[i..i + 2];
      assert !Text.OccursAt(slug, IosIdMarker, i);
    } else if i + 1 == |slug| {
      assert rest[i + 1] == '/';
    } else {
      assert rest[i] == '/';
    }
  }

  /** The cleaned store link splits into the row (slug, digits). */
  lemma IosStoreLinkCandidate(slug: string, digits: string)
    requires '/' !in slug && '/' !in digits
    ensures Text.Split(slug + "/" + digits, '/') == [slug, digits]
    ensures CandidateOf(slug + "/" + digits) == Candidate(slug, Some(digits))
  {
    assert Text.Join([slug, digits], '/') == slug + "/" + digits;
    Text.SplitJoin([slug, digits], '/');
  }

  /** A link with a single '/' cannot contain the store prefix, which has `//` in it. */
  lemma OnlySlash(slug: string, tail: string)
    requires '/' !in slug && '/' !in tail
    ensures !Text.Contains(slug + "/" + tail, IosAppPrefix)
  {
    var s := slug + "/" + tail;
    forall i: nat ensures !Text.OccursAt(s, IosAppPrefix, i) {
      if i + |IosAppPrefix| <= |s| {
        var w := s[i..i + |IosAppPrefix|];
        assert w[6] == s[i + 6] && w[7] == s[i + 7];
        assert IosAppPrefix[6] == '/' && IosAppPrefix[7] == '/';
        SlashAt(slug, tail, i + 6);
        SlashAt(slug, tail, i + 7);
      }
    }
  }

  lemma SlashAt(slug: string, tail: string, k: nat)
    requires '/' !in slug && '/' !in tail && k < |slug| + 1 + |tail|
    ensures (slug + "/" + tail)[k] == '/' ==> k == |slug|
  {
    var s := slug + "/" + tail;
    if k < |slug| {
      assert s[k] == slug[k];
    } else if k > |slug| {
      assert s[k] == tail[k - |slug| - 1];
    }
  }
}
