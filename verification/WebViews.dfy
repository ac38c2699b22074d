// The collection of web views of a window, and opening an internal page at most once
// (crates/chrome/src/running_app_state.rs, crates/chrome/src/window.rs).
module WebViews {
  import opened Text

  // ---------- internal pages ----------

  datatype Page = Home | Web | Downloads | Calendar | Chat | Contacts | Files | Settings

  datatype Url = Url(scheme: string, host: Option<string>, path: string)

  function TrimSlashes(s: string): string
    decreases |s|
  {
    if s == "" then ""
    else if s[0] == '/' then TrimSlashes(s[1..])
    else if s[|s| - 1] == '/' then TrimSlashes(s[..|s| - 1])
    else s
  }

  function PageNamed(name: string): Option<Page> {
    if name == "home" then Some(Home)
    else if name == "web" then Some(Web)
    else if name == "downloads" then Some(Downloads)
    else if name == "calendar" then Some(Calendar)
    else if name == "chat" || name == "messages" then Some(Chat)
    else if name == "contacts" then Some(Contacts)
    else if name == "files" then Some(Files)
    else if name == "settings" then Some(Settings)
    else None
  }

  /** `slate://name` with an empty path, or `slate:name`. */
  function ReusablePage(url: Url): Option<Page> {
    if url.scheme != "slate" then None
    else
      var path := TrimSlashes(url.path);
      match url.host
      case Some(host) => if path == "" then PageNamed(host) else None
      case None => PageNamed(path)
  }

  function ExistingTargetIndex(page: Page, count: nat): (r: Option<nat>)
    ensures r.None? <==> count == 0
  {
    if count == 0 then None else Some(count - 1)
  }

  /** Which page a URL names; the lemmas below hold for any such naming. */
  type Recogniser = Url -> Option<Page>

  const PAGE_OF: Recogniser := (url: Url) => ReusablePage(url)

  lemma NoSlashesToTrim(name: string)
    requires '/' !in name
    ensures TrimSlashes(name) == name
  {
  }

  /**
   * `slate://name`, `slate:name` and `slate:/name/`, with any slashes at the ends of the path, are
   * the same page, or none of them is one. A host never contains a slash: it would end there.
   */
  lemma BothFormsAgree(name: string, hostPath: string, path: string)
    requires '/' !in name && TrimSlashes(hostPath) == "" && TrimSlashes(path) == name
    ensures ReusablePage(Url("slate", Some(name), hostPath)) == ReusablePage(Url("slate", None, path))
    ensures ReusablePage(Url("slate", Some(name), hostPath)) == ReusablePage(Url("slate", None, name))
  {
    NoSlashesToTrim(name);
  }

  // ---------- the collection as a value ----------

  type ViewId = nat

  datatype View = View(url: Option<Url>, shown: bool, focused: bool)

  datatype Views = Views(views: map<ViewId, View>, order: seq<ViewId>, active: Option<ViewId>)

  const EMPTY := Views(map[], [], None)

  predicate NoRepeats(ids: seq<ViewId>) {
    forall i, j :: 0 <= i < j < |ids| ==> ids[i] != ids[j]
  }

  /** The order lists each view once, and the active view, if any, is one of them. */
  ghost predicate Valid(s: Views) {
    && NoRepeats(s.order)
    && (forall id :: id in s.order <==> id in s.views)
    && (s.active.Some? ==> s.active.value in s.views)
  }

  function Flagged(v: View, on: bool): View {
    v.(shown := on, focused := on)
  }

  function Activate(s: Views, id: ViewId): Views {
    s.(active := Some(id),
       views := map k | k in s.views :: if k in s.order then Flagged(s.views[k], k == id) else s.views[k])
  }

  /** `retain` of everything but one id. */
  function Without(ids: seq<ViewId>, id: ViewId): (r: seq<ViewId>)
    ensures forall k :: k in r <==> k in ids && k != id
  {
    if ids == [] then []
    else (if ids[0] == id then [] else [ids[0]]) + Without(ids[1..], id)
  }

  function Add(s: Views, id: ViewId, v: View): Views {
    s.(order := s.order + [id], views := s.views[id := v])
  }

  /** Taken out of the order and the map. */
  function Dropped(s: Views, id: ViewId): Views {
    s.(order := Without(s.order, id), views := s.views - {id})
  }

  function Remove(s: Views, id: ViewId): Views {
    var t := Dropped(s, id);
    if s.active != Some(id) then t
    else if t.order == [] then t.(active := None)
    else Activate(t.(active := None), t.order[|t.order| - 1])
  }

  function ActivateAt(s: Views, index: nat): Views {
    if index < |s.order| then Activate(s, s.order[index]) else s
  }

  function RemoveAll(s: Views, ids: seq<ViewId>): Views
    decreases |ids|
  {
    if ids == [] then s else RemoveAll(Remove(s, ids[0]), ids[1..])
  }

  predicate Shows(pageOf: Recogniser, s: Views, id: ViewId, page: Page) {
    id in s.views && s.views[id].url.Some? && pageOf(s.views[id].url.value) == Some(page)
  }

  /** The ids, in the given order, of the views that show a page. */
  function Matching(pageOf: Recogniser, s: Views, ids: seq<ViewId>, page: Page): (r: seq<ViewId>)
    ensures forall k :: k in r <==> k in ids && Shows(pageOf, s, k, page)
  {
    if ids == [] then []
    else (if Shows(pageOf, s, ids[0], page) then [ids[0]] else []) + Matching(pageOf, s, ids[1..], page)
  }

  /** Opening a reusable page: focus the newest view of it and close the others, or make one. */
  function Open(pageOf: Recogniser, s: Views, url: Url, page: Page, freshId: ViewId, flags: View): Views {
    var matching := Matching(pageOf, s, s.order, page);
    match ExistingTargetIndex(page, |matching|)
    case Some(i) =>
      var target := matching[i];
      Activate(RemoveAll(s, Without(matching, target)), target)
    case None => Activate(Add(s, freshId, flags.(url := Some(url))), freshId)
  }

  // ---------- what every operation keeps ----------

  lemma {:induction false} WithoutNoRepeats(ids: seq<ViewId>, id: ViewId)
    requires NoRepeats(ids)
    ensures NoRepeats(Without(ids, id))
  {
    if ids != [] {
      WithoutNoRepeats(ids[1..], id);
      var rest := Without(ids[1..], id);
      forall j | 0 <= j < |rest| ensures rest[j] != ids[0] {
        assert rest[j] in rest;
      }
    }
  }

  lemma ActivateKeeps(s: Views, id: ViewId)
    requires Valid(s) && id in s.order
    ensures Valid(Activate(s, id))
  {
  }

  lemma DroppedKeeps(s: Views, id: ViewId)
    requires Valid(s)
    ensures Valid(Dropped(s, id).(active := None))
  {
    WithoutNoRepeats(s.order, id);
  }

  /** Removing the active view activates the newest that is left. */
  lemma NewestActivated(s: Views, id: ViewId)
    requires Valid(s) && s.active == Some(id) && Without(s.order, id) != []
    ensures var t := Dropped(s, id).(active := None);
            t.order[|t.order| - 1] in t.order && Remove(s, id) == Activate(t, t.order[|t.order| - 1])
  {
  }

  lemma RemoveKeeps(s: Views, id: ViewId)
    requires Valid(s)
    ensures Valid(Remove(s, id))
    ensures Remove(s, id).order == Without(s.order, id)
    ensures Remove(s, id).views.Keys == s.views.Keys - {id}
    ensures forall k :: k in Remove(s, id).views ==> Remove(s, id).views[k].url == s.views[k].url
    ensures s.active.Some? && Remove(s, id).order != [] ==> Remove(s, id).active.Some?
  {
    WithoutNoRepeats(s.order, id);
    var t := Dropped(s, id);
    if s.active == Some(id) && t.order != [] {
      assert t.order[|t.order| - 1] in t.order;
    }
  }

  lemma AddKeeps(s: Views, id: ViewId, v: View)
    requires Valid(s) && id !in s.views
    ensures Valid(Add(s, id, v))
  {
  }

  lemma {:induction false} RemoveAllKeeps(s: Views, ids: seq<ViewId>)
    requires Valid(s)
    ensures var t := RemoveAll(s, ids);
            && Valid(t)
            && t.views.Keys == s.views.Keys - (set k | k in ids)
            && (forall k :: k in t.views ==> t.views[k].url == s.views[k].url)
            && t.order == WithoutAll(s.order, ids)
    decreases |ids|
  {
    if ids != [] {
      RemoveKeeps(s, ids[0]);
      RemoveAllKeeps(Remove(s, ids[0]), ids[1..]);
      assert (set k | k in ids) == {ids[0]} + (set k | k in ids[1..]);
    }
  }

  function WithoutAll(order: seq<ViewId>, ids: seq<ViewId>): (r: seq<ViewId>)
    ensures forall k :: k in r <==> k in order && k !in ids
    decreases |ids|
  {
    if ids == [] then order else WithoutAll(Without(order, ids[0]), ids[1..])
  }

  /** Keeping only the members of a set, in order. */
  function Keep(order: seq<ViewId>, keep: set<ViewId>): seq<ViewId> {
    if order == [] then []
    else (if order[0] in keep then [order[0]] else []) + Keep(order[1..], keep)
  }

  lemma {:induction false} WithoutIsKeep(order: seq<ViewId>, id: ViewId, keep: set<ViewId>)
    requires id !in keep
    ensures Keep(Without(order, id), keep) == Keep(order, keep)
  {
    if order != [] {
      WithoutIsKeep(order[1..], id, keep);
      if order[0] == id {
        assert Without(order, id) == Without(order[1..], id);
      } else {
        assert ([order[0]] + Without(order[1..], id))[1..] == Without(order[1..], id);
      }
    }
  }

  lemma {:induction false} KeepAll(order: seq<ViewId>, keep: set<ViewId>)
    requires forall k :: k in order ==> k in keep
    ensures Keep(order, keep) == order
  {
    if order != [] {
      KeepAll(order[1..], keep);
    }
  }

  /** Removing ids one after the other leaves the rest in their order. */
  lemma {:induction false} WithoutAllIsKeep(order: seq<ViewId>, ids: seq<ViewId>, keep: set<ViewId>)
    requires forall k :: k in order ==> (k in keep <==> k !in ids)
    requires forall k :: k in ids ==> k !in keep
    ensures WithoutAll(order, ids) == Keep(order, keep)
    decreases |ids|
  {
    if ids == [] {
      KeepAll(order, keep);
    } else {
      WithoutAllIsKeep(Without(order, ids[0]), ids[1..], keep);
      WithoutIsKeep(order, ids[0], keep);
    }
  }

  // ---------- opening a page ----------

  /** Nothing that shows the page comes after the last match. */
  lemma {:induction false} LastMatchIsNewest(pageOf: Recogniser, s: Views, ids: seq<ViewId>, page: Page) returns (at: nat)
    requires Matching(pageOf, s, ids, page) != []
    ensures at < |ids| && ids[at] == Matching(pageOf, s, ids, page)[|Matching(pageOf, s, ids, page)| - 1]
    ensures forall j :: at < j < |ids| ==> !Shows(pageOf, s, ids[j], page)
  {
    var rest := Matching(pageOf, s, ids[1..], page);
    if rest == [] {
      at := 0;
      forall j | 0 < j < |ids| ensures !Shows(pageOf, s, ids[j], page) {
        assert ids[j] == ids[1..][j - 1];
        assert ids[1..][j - 1] !in rest;
      }
    } else {
      var i := LastMatchIsNewest(pageOf, s, ids[1..], page);
      at := i + 1;
      forall j | at < j < |ids| ensures !Shows(pageOf, s, ids[j], page) {
        assert !Shows(pageOf, s, ids[1..][j - 1], page);
      }
    }
  }

  /** `target`, at this position, shows the page, and nothing newer does. */
  predicate IsNewestAt(pageOf: Recogniser, s: Views, page: Page, target: ViewId, at: nat) {
    && at < |s.order| && s.order[at] == target && Shows(pageOf, s, target, page)
    && forall j :: at < j < |s.order| ==> !Shows(pageOf, s, s.order[j], page)
  }

  /** The view a page is opened in: the newest that shows it, or the fresh one. */
  ghost predicate IsTarget(pageOf: Recogniser, s: Views, page: Page, freshId: ViewId, target: ViewId) {
    if Matching(pageOf, s, s.order, page) == [] then target == freshId
    else exists at: nat :: IsNewestAt(pageOf, s, page, target, at)
  }

  /** Nothing but the flags of the views differs. */
  predicate SameUrls(s: Views, t: Views, ids: set<ViewId>) {
    ids <= s.views.Keys && ids <= t.views.Keys && forall k :: k in ids ==> t.views[k].url == s.views[k].url
  }

  /** `id` is active, and it alone is shown and focused. */
  predicate OnlyVisible(t: Views, id: ViewId) {
    && t.active == Some(id) && id in t.views
    && forall k :: k in t.views ==> (t.views[k].shown <==> k == id) && (t.views[k].focused <==> k == id)
  }

  lemma ActivateShows(s: Views, id: ViewId)
    requires Valid(s) && id in s.order
    ensures Valid(Activate(s, id)) && Activate(s, id).order == s.order
    ensures OnlyVisible(Activate(s, id), id)
    ensures Activate(s, id).views.Keys == s.views.Keys && SameUrls(s, Activate(s, id), s.views.Keys)
  {
  }

  lemma NoMatch(pageOf: Recogniser, s: Views, page: Page)
    requires Valid(s) && Matching(pageOf, s, s.order, page) == []
    ensures forall k :: !Shows(pageOf, s, k, page)
  {
    forall k ensures !Shows(pageOf, s, k, page) {
      assert k !in Matching(pageOf, s, s.order, page);
    }
  }

  lemma OpenNew(pageOf: Recogniser, s: Views, url: Url, page: Page, freshId: ViewId, flags: View)
    requires Valid(s) && freshId !in s.views && pageOf(url) == Some(page)
    requires Matching(pageOf, s, s.order, page) == []
    ensures var t := Open(pageOf, s, url, page, freshId, flags);
            && Valid(t) && OnlyVisible(t, freshId)
            && t.order == s.order + [freshId]
            && t.views.Keys == s.views.Keys + {freshId}
            && SameUrls(s, t, s.views.Keys)
            && (forall k :: Shows(pageOf, t, k, page) <==> k == freshId)
  {
    var added := Add(s, freshId, flags.(url := Some(url)));
    AddKeeps(s, freshId, flags.(url := Some(url)));
    ActivateShows(added, freshId);
    NoMatch(pageOf, s, page);
    var t := Open(pageOf, s, url, page, freshId, flags);
    assert t == Activate(added, freshId);
    forall k ensures Shows(pageOf, t, k, page) <==> k == freshId {
      assert k in s.views ==> t.views[k].url == s.views[k].url && !Shows(pageOf, s, k, page);
    }
  }

  /** Closing all matches but one leaves that one as the only view of the page. */
  lemma CloseOthers(pageOf: Recogniser, s: Views, page: Page, target: ViewId)
    requires Valid(s) && target in Matching(pageOf, s, s.order, page)
    ensures var closed := RemoveAll(s, Without(Matching(pageOf, s, s.order, page), target));
            && Valid(closed) && SameUrls(s, closed, closed.views.Keys)
            && (forall k :: k in closed.views <==> k in s.views && (k == target || !Shows(pageOf, s, k, page)))
            && closed.order == Keep(s.order, closed.views.Keys)
  {
    var others := Without(Matching(pageOf, s, s.order, page), target);
    var closed := RemoveAll(s, others);
    RemoveAllKeeps(s, others);
    forall k ensures k in closed.views <==> k in s.views && (k == target || !Shows(pageOf, s, k, page)) {
      assert k in others <==> k in s.order && Shows(pageOf, s, k, page) && k != target;
    }
    WithoutAllIsKeep(s.order, others, closed.views.Keys);
  }

  lemma OnlyTargetShows(pageOf: Recogniser, s: Views, t: Views, page: Page, target: ViewId)
    requires SameUrls(s, t, t.views.Keys) && Shows(pageOf, s, target, page)
    requires forall k :: k in t.views <==> k in s.views && (k == target || !Shows(pageOf, s, k, page))
    ensures forall k :: Shows(pageOf, t, k, page) <==> k == target
  {
    forall k ensures Shows(pageOf, t, k, page) <==> k == target {
      assert k in t.views ==> t.views[k].url == s.views[k].url;
    }
  }

  lemma LastMatchIsTarget(pageOf: Recogniser, s: Views, page: Page, freshId: ViewId)
    requires Matching(pageOf, s, s.order, page) != []
    ensures IsTarget(pageOf, s, page, freshId, Matching(pageOf, s, s.order, page)[|Matching(pageOf, s, s.order, page)| - 1])
  {
    var matching := Matching(pageOf, s, s.order, page);
    assert matching[|matching| - 1] in matching;
    var at := LastMatchIsNewest(pageOf, s, s.order, page);
    assert IsNewestAt(pageOf, s, page, matching[|matching| - 1], at);
  }

  /** Only `target` is left of the views of the page; the others are as before, and it is visible. */
  predicate OneLeft(pageOf: Recogniser, s: Views, t: Views, page: Page, target: ViewId) {
    && OnlyVisible(t, target) && target in s.views
    && t.order == Keep(s.order, t.views.Keys)
    && SameUrls(s, t, t.views.Keys)
    && (forall k :: k in s.views ==> (k in t.views <==> k == target || !Shows(pageOf, s, k, page)))
  }

  lemma CloseAndActivate(pageOf: Recogniser, s: Views, page: Page, target: ViewId)
    requires Valid(s) && target in Matching(pageOf, s, s.order, page)
    ensures var t := Activate(RemoveAll(s, Without(Matching(pageOf, s, s.order, page), target)), target);
            Valid(t) && OneLeft(pageOf, s, t, page, target) && forall k :: Shows(pageOf, t, k, page) <==> k == target
  {
    var closed := RemoveAll(s, Without(Matching(pageOf, s, s.order, page), target));
    var t := Activate(closed, target);
    CloseOthers(pageOf, s, page, target);
    ActivateShows(closed, target);
    OnlyTargetShows(pageOf, s, t, page, target);
  }

  /** The newest match. */
  function Newest(pageOf: Recogniser, s: Views, page: Page): ViewId
    requires Matching(pageOf, s, s.order, page) != []
  {
    Matching(pageOf, s, s.order, page)[|Matching(pageOf, s, s.order, page)| - 1]
  }

  /** All matches but the newest closed, and that one activated. */
  function Reopened(pageOf: Recogniser, s: Views, page: Page): Views
    requires Matching(pageOf, s, s.order, page) != []
  {
    Activate(RemoveAll(s, Without(Matching(pageOf, s, s.order, page), Newest(pageOf, s, page))), Newest(pageOf, s, page))
  }

  lemma OpenExisting(pageOf: Recogniser, s: Views, url: Url, page: Page, freshId: ViewId, flags: View)
    requires Matching(pageOf, s, s.order, page) != []
    ensures Open(pageOf, s, url, page, freshId, flags) == Reopened(pageOf, s, page)
  {
  }

  /** Every view of another page is still there, at its URL, and the old views are in their old order. */
  predicate OthersSurvive(pageOf: Recogniser, s: Views, t: Views, page: Page, target: ViewId) {
    && (forall k :: k in s.views && !Shows(pageOf, s, k, page) ==> k in t.views && t.views[k].url == s.views[k].url)
    && t.order == Keep(s.order, t.views.Keys) + (if target in s.views then [] else [target])
  }

  lemma OneLeftSurvive(pageOf: Recogniser, s: Views, t: Views, page: Page, target: ViewId)
    requires OneLeft(pageOf, s, t, page, target)
    ensures OthersSurvive(pageOf, s, t, page, target)
  {
  }

  lemma OpenNewSurvive(pageOf: Recogniser, s: Views, t: Views, page: Page, freshId: ViewId)
    requires Valid(s) && freshId !in s.views && t.order == s.order + [freshId]
    requires t.views.Keys == s.views.Keys + {freshId} && SameUrls(s, t, s.views.Keys)
    ensures OthersSurvive(pageOf, s, t, page, freshId)
  {
    KeepAll(s.order, t.views.Keys);
  }

  /**
   * What opening an internal page comes to: exactly one view of it, the newest there was or the
   * new one, active and alone shown and focused; every other page's views survive, in order, at
   * their URLs.
   */
  ghost predicate Opened(pageOf: Recogniser, s: Views, t: Views, page: Page, freshId: ViewId, target: ViewId) {
    && Valid(t)
    && IsTarget(pageOf, s, page, freshId, target)
    && OnlyVisible(t, target)
    && (forall k :: Shows(pageOf, t, k, page) <==> k == target)
    && OthersSurvive(pageOf, s, t, page, target)
  }

  lemma OpenedAnew(pageOf: Recogniser, s: Views, url: Url, page: Page, freshId: ViewId, flags: View)
    requires Valid(s) && freshId !in s.views && pageOf(url) == Some(page)
    requires Matching(pageOf, s, s.order, page) == []
    ensures Opened(pageOf, s, Open(pageOf, s, url, page, freshId, flags), page, freshId, freshId)
  {
    OpenNew(pageOf, s, url, page, freshId, flags);
    OpenNewSurvive(pageOf, s, Open(pageOf, s, url, page, freshId, flags), page, freshId);
  }

  lemma ClosedAndActivated(pageOf: Recogniser, s: Views, t: Views, page: Page, freshId: ViewId, target: ViewId)
    requires Valid(s) && target in Matching(pageOf, s, s.order, page) && IsTarget(pageOf, s, page, freshId, target)
    requires t == Activate(RemoveAll(s, Without(Matching(pageOf, s, s.order, page), target)), target)
    ensures Opened(pageOf, s, t, page, freshId, target)
  {
    CloseAndActivate(pageOf, s, page, target);
    OneLeftSurvive(pageOf, s, t, page, target);
  }

  lemma NewestIsTarget(pageOf: Recogniser, s: Views, page: Page, freshId: ViewId)
    requires Matching(pageOf, s, s.order, page) != []
    ensures Newest(pageOf, s, page) in Matching(pageOf, s, s.order, page)
    ensures IsTarget(pageOf, s, page, freshId, Newest(pageOf, s, page))
  {
    LastMatchIsTarget(pageOf, s, page, freshId);
  }

  lemma OpenedAgain(pageOf: Recogniser, s: Views, page: Page, freshId: ViewId)
    requires Valid(s) && Matching(pageOf, s, s.order, page) != []
    ensures Opened(pageOf, s, Reopened(pageOf, s, page), page, freshId, Newest(pageOf, s, page))
  {
    NewestIsTarget(pageOf, s, page, freshId);
    ClosedAndActivated(pageOf, s, Reopened(pageOf, s, page), page, freshId, Newest(pageOf, s, page));
  }

  /** Opening an internal page, from any valid collection. */
  lemma OpenLeavesOneView(pageOf: Recogniser, s: Views, url: Url, page: Page, freshId: ViewId, flags: View) returns (target: ViewId)
    requires Valid(s) && freshId !in s.views && pageOf(url) == Some(page)
    ensures Opened(pageOf, s, Open(pageOf, s, url, page, freshId, flags), page, freshId, target)
  {
    if Matching(pageOf, s, s.order, page) == [] {
      target := freshId;
      OpenedAnew(pageOf, s, url, page, freshId, flags);
    } else {
      target := Newest(pageOf, s, page);
      OpenedAgain(pageOf, s, page, freshId);
      OpenExisting(pageOf, s, url, page, freshId, flags);
    }
  }

  // ---------- every run ----------

  datatype Command =
    | AddView(id: ViewId, view: View)
    | CloseView(id: ViewId)
    | ActivateView(id: ViewId)
    | ActivateIndex(index: nat)
    | OpenUrl(url: Url, freshId: ViewId, flags: View)

  /** Ids of new views are fresh, and only listed views are activated by id. */
  predicate Allowed(s: Views, c: Command) {
    match c
    case AddView(id, _) => id !in s.views
    case ActivateView(id) => id in s.order
    case OpenUrl(_, freshId, _) => freshId !in s.views
    case _ => true
  }

  function Do(pageOf: Recogniser, s: Views, c: Command): Views {
    match c
    case AddView(id, view) => Add(s, id, view)
    case CloseView(id) => Remove(s, id)
    case ActivateView(id) => Activate(s, id)
    case ActivateIndex(index) => ActivateAt(s, index)
    case OpenUrl(url, freshId, flags) =>
      match pageOf(url)
      case Some(page) => Open(pageOf, s, url, page, freshId, flags)
      case None => s
  }

  lemma DoKeeps(pageOf: Recogniser, s: Views, c: Command)
    requires Valid(s) && Allowed(s, c)
    ensures Valid(Do(pageOf, s, c))
    ensures s.active.Some? && Do(pageOf, s, c).views != map[] ==> Do(pageOf, s, c).active.Some?
  {
    match c
    case AddView(id, view) => AddKeeps(s, id, view);
    case CloseView(id) =>
      RemoveKeeps(s, id);
      var t := Remove(s, id);
      if t.views != map[] {
        var k :| k in t.views;
        assert k in t.order;
      }
    case ActivateView(id) => ActivateKeeps(s, id);
    case ActivateIndex(index) =>
      if index < |s.order| {
        ActivateKeeps(s, s.order[index]);
      }
    case OpenUrl(url, freshId, flags) =>
      if pageOf(url).Some? {
        var target := OpenLeavesOneView(pageOf, s, url, pageOf(url).value, freshId, flags);
      }
  }

  function Run(pageOf: Recogniser, s: Views, commands: seq<Command>): Views
    decreases |commands|
  {
    if commands == [] then s else Run(pageOf, Do(pageOf, s, commands[0]), commands[1..])
  }

  predicate AllAllowed(pageOf: Recogniser, s: Views, commands: seq<Command>)
    decreases |commands|
  {
    commands == [] || (Allowed(s, commands[0]) && AllAllowed(pageOf, Do(pageOf, s, commands[0]), commands[1..]))
  }

  predicate NeverEmpty(pageOf: Recogniser, s: Views, commands: seq<Command>)
    decreases |commands|
  {
    s.views != map[] && (commands == [] || NeverEmpty(pageOf, Do(pageOf, s, commands[0]), commands[1..]))
  }

  /** Every run keeps the order and the map in step, and an active view stays set until none is left. */
  lemma {:induction false} RunKeeps(pageOf: Recogniser, s: Views, commands: seq<Command>)
    requires Valid(s) && AllAllowed(pageOf, s, commands)
    ensures Valid(Run(pageOf, s, commands))
    ensures s.active.Some? && NeverEmpty(pageOf, s, commands) ==> Run(pageOf, s, commands).active.Some?
    decreases |commands|
  {
    if commands != [] {
      var next, rest := Do(pageOf, s, commands[0]), commands[1..];
      DoKeeps(pageOf, s, commands[0]);
      assert NeverEmpty(pageOf, s, commands) ==> NeverEmpty(pageOf, next, rest);
      assert NeverEmpty(pageOf, next, rest) ==> next.views != map[];
      RunKeeps(pageOf, next, rest);
    }
  }

  // ---------- the collection object ----------

  class WebViewCollection {
    var webviews: map<ViewId, View>
    var creationOrder: seq<ViewId>
    var activeWebviewId: Option<ViewId>

    ghost function Now(): Views
      reads this
    {
      Views(webviews, creationOrder, activeWebviewId)
    }

    constructor ()
      ensures Now() == EMPTY && Valid(Now())
    {
      webviews, creationOrder, activeWebviewId := map[], [], None;
    }

    method AddView(id: ViewId, view: View)
      modifies this
      ensures Now() == Add(old(Now()), id, view)
    {
      creationOrder := creationOrder + [id];
      webviews := webviews[id := view];
    }

    /** The caller must pass a listed id; the original panics otherwise. */
    method ActivateWebView(id: ViewId)
      requires Valid(Now()) && id in creationOrder
      modifies this
      ensures Now() == Activate(old(Now()), id)
    {
      activeWebviewId := Some(id);
      ghost var before := webviews;
      for i := 0 to |creationOrder|
        invariant creationOrder == old(creationOrder) && activeWebviewId == Some(id)
        invariant webviews.Keys == before.Keys
        invariant forall k :: k in before ==>
                    webviews[k] == if k in creationOrder[..i] then Flagged(before[k], k == id) else before[k]
      {
        var webviewId := creationOrder[i];
        assert creationOrder[..i + 1] == creationOrder[..i] + [webviewId];
        var on := webviewId == id;
        webviews := webviews[webviewId := webviews[webviewId].(shown := on, focused := on)];
      }
      assert creationOrder[..|creationOrder|] == creationOrder;
      assert webviews == Activate(old(Now()), id).views;
    }

    method RemoveView(id: ViewId) returns (removed: Option<View>)
      requires Valid(Now())
      modifies this
      ensures Now() == Remove(old(Now()), id) && Valid(Now())
      ensures removed == if id in old(webviews) then Some(old(webviews)[id]) else None
    {
      ghost var s := Now();
      DroppedKeeps(s, id);
      creationOrder := Without(creationOrder, id);
      removed := if id in webviews then Some(webviews[id]) else None;
      webviews := webviews - {id};
      if activeWebviewId == Some(id) {
        activeWebviewId := None;
        assert Now() == Dropped(s, id).(active := None);
        if creationOrder != [] {
          NewestActivated(s, id);
          ActivateWebView(creationOrder[|creationOrder| - 1]);
        }
      }
      RemoveKeeps(s, id);
    }

    method ActivateWebViewByIndex(index: nat)
      requires Valid(Now())
      modifies this
      ensures Now() == ActivateAt(old(Now()), index)
    {
      if index < |creationOrder| {
        ActivateWebView(creationOrder[index]);
      }
    }

    /** Opens a reusable page, or answers false for any other URL. `freshId` is the id a new view would get. */
    method OpenReusableInternalPage(url: Url, freshId: ViewId, flags: View) returns (handled: bool)
      requires Valid(Now()) && freshId !in webviews
      modifies this
      ensures handled <==> ReusablePage(url).Some?
      ensures Now() == Do(PAGE_OF, old(Now()), OpenUrl(url, freshId, flags)) && Valid(Now())
    {
      DoKeeps(PAGE_OF, Now(), OpenUrl(url, freshId, flags));
      var page := ReusablePage(url);
      if page.None? {
        return false;
      }
      var matchingIds := Matching(PAGE_OF, Views(webviews, creationOrder, activeWebviewId), creationOrder, page.value);
      var index := ExistingTargetIndex(page.value, |matchingIds|);
      match index {
        case Some(i) =>
          var target := matchingIds[i];
          var duplicates := Without(matchingIds, target);
          ghost var s := Now();
          assert duplicates[0..] == duplicates;
          for d := 0 to |duplicates|
            invariant Valid(Now())
            invariant RemoveAll(s, duplicates) == RemoveAll(Now(), duplicates[d..])
          {
            assert duplicates[d..][1..] == duplicates[d + 1..];
            var removed := RemoveView(duplicates[d]);
          }
          RemoveAllKeeps(s, duplicates);
          assert target in matchingIds;
          ActivateWebView(target);
        case None =>
          AddKeeps(Now(), freshId, flags.(url := Some(url)));
          AddView(freshId, flags.(url := Some(url)));
          ActivateWebView(freshId);
      }
      return true;
    }
  }
}
