/**
 * `upload_video`'s request body and return value, and the loop of the
 * uploader's `main`: the globbed files in sorted order, each skipped when it is
 * not a regular file or when its `{path}.uploaded` marker exists, otherwise
 * uploaded, and marked with the returned video id when there is one. The
 * filesystem is the set of regular files and the map of marker files; the
 * YouTube API is an oracle from path and request body to outcome.
 */
module UploadMain {
  import opened Wrappers
  import opened Text
  import opened JsonValues
  import opened UploadNames
  import opened UploadTitles

  // ---------------------------------------------------------------- sorted()

  /** Python's `<=` on strings: code point by code point, a prefix first. */
  predicate StrLe(a: string, b: string)
    decreases |a|
  {
    a == "" || (b != "" && (a[0] < b[0] || (a[0] == b[0] && StrLe(a[1..], b[1..]))))
  }

  lemma {:induction false} StrLeTotal(a: string, b: string)
    ensures StrLe(a, b) || StrLe(b, a)
    decreases |a|
  {
    if a != "" && b != "" && a[0] == b[0] {
      StrLeTotal(a[1..], b[1..]);
    }
  }

  lemma {:induction false} StrLeTrans(a: string, b: string, c: string)
    requires StrLe(a, b) && StrLe(b, c)
    ensures StrLe(a, c)
    decreases |a|
  {
    if a != "" && a[0] == b[0] && b[0] == c[0] {
      StrLeTrans(a[1..], b[1..], c[1..]);
    }
  }

  predicate Sorted(s: seq<string>) {
    forall i, j :: 0 <= i < j < |s| ==> StrLe(s[i], s[j])
  }

  function Insert(x: string, s: seq<string>): (r: seq<string>)
    ensures multiset(r) == multiset(s) + multiset{x}
  {
    if s == [] || StrLe(x, s[0]) then [x] + s
    else
      assert s == [s[0]] + s[1..];
      [s[0]] + Insert(x, s[1..])
  }

  /** `sorted(files)` */
  function SortStrings(s: seq<string>): (r: seq<string>)
    ensures multiset(r) == multiset(s)
  {
    if s == [] then []
    else
      assert s == [s[0]] + s[1..];
      Insert(s[0], SortStrings(s[1..]))
  }

  lemma {:induction false} InsertSorted(x: string, s: seq<string>)
    requires Sorted(s)
    ensures Sorted(Insert(x, s))
  {
    if s == [] || StrLe(x, s[0]) {
      var r := [x] + s;
      forall j | 0 < j < |r| ensures StrLe(x, r[j]) {
        if j > 1 {
          StrLeTrans(x, s[0], s[j - 1]);
        }
      }
    } else {
      StrLeTotal(x, s[0]);
      InsertSorted(x, s[1..]);
      var t := Insert(x, s[1..]);
      forall j | 0 <= j < |t| ensures StrLe(s[0], t[j]) {
        assert t[j] in multiset(t);
        assert t[j] == x || t[j] in multiset(s[1..]);
        if t[j] != x {
          var k :| 0 <= k < |s[1..]| && s[1..][k] == t[j];
          assert s[k + 1] == t[j];
        }
      }
    }
  }

  /** `sorted` returns the same files, ordered. */
  lemma {:induction false} SortStringsSorted(s: seq<string>)
    ensures Sorted(SortStrings(s)) && multiset(SortStrings(s)) == multiset(s)
  {
    if s != [] {
      SortStringsSorted(s[1..]);
      InsertSorted(s[0], SortStrings(s[1..]));
    }
  }

  predicate Distinct(s: seq<string>) {
    forall i, j :: 0 <= i < j < |s| ==> s[i] != s[j]
  }

  lemma HeadNotInTail(s: seq<string>)
    requires Distinct(s) && s != []
    ensures s[0] !in multiset(s[1..])
  {
    forall k | 0 <= k < |s| - 1 ensures s[1..][k] != s[0] {
      assert s[1..][k] == s[k + 1];
    }
  }

  lemma {:induction false} InsertDistinct(x: string, s: seq<string>)
    requires Distinct(s) && x !in s
    ensures Distinct(Insert(x, s))
  {
    if !(s == [] || StrLe(x, s[0])) {
      assert s[0] != x;
      assert Distinct(s[1..]) && x !in s[1..];
      InsertDistinct(x, s[1..]);
      var t := Insert(x, s[1..]);
      HeadNotInTail(s);
      assert s[0] !in multiset(t);
      forall j | 0 <= j < |t| ensures t[j] != s[0] {
        assert t[j] in multiset(t);
      }
    }
  }

  /** `sorted` of a list without repeats has no repeats. */
  lemma {:induction false} SortStringsDistinct(s: seq<string>)
    requires Distinct(s)
    ensures Distinct(SortStrings(s))
  {
    if s != [] {
      assert Distinct(s[1..]);
      SortStringsDistinct(s[1..]);
      HeadNotInTail(s);
      assert s[0] !in multiset(SortStrings(s[1..]));
      InsertDistinct(s[0], SortStrings(s[1..]));
    }
  }

  // ---------------------------------------------------------------- upload_video

  /** How the API call ends: a response dict, an `HttpError`, or another exception. */
  datatype UploadOutcome = Response(fields: map<string, Json>) | ApiError | OtherError

  /** What `upload_video` returns: the response's `id` when it is truthy, `None` otherwise. */
  function UploadResult(o: UploadOutcome): (r: Option<Json>)
    ensures r.Some? <==> o.Response? && "id" in o.fields && Truthy(o.fields["id"])
    ensures r.Some? ==> r.value == o.fields["id"]
  {
    if o.Response? && Truthy(Get(o.fields, "id")) then Some(Get(o.fields, "id")) else None
  }

  /** The request body of `upload_video`: the title is cut to 100 characters. */
  function UploadBody(title: string, description: string, tags: seq<string>, categoryId: string, privacy: string): (r: Json)
    ensures r.Object? && r.fields.Keys == {"snippet", "status"}
    ensures r.fields["snippet"].Object? && "title" in r.fields["snippet"].fields
    ensures var t := r.fields["snippet"].fields["title"]; t.Str? && |t.s| <= MaxTitle && |t.s| <= |title| && t.s == title[..|t.s|]
  {
    Object(map[
      "snippet" := Object(map[
        "title" := Str(SentTitle(title)),
        "description" := Str(description),
        "tags" := List(seq(|tags|, k requires 0 <= k < |tags| => Str(tags[k]))),
        "categoryId" := Str(categoryId)]),
      "status" := Object(map["privacyStatus" := Str(privacy)])])
  }

  const HashtagsLine := "#redditstories #reddit #aita"
  const Description := HashtagsLine + "\n\nAuto-uploaded."
  const Tags := ["redditstories", "reddit", "aita"]

  // ---------------------------------------------------------------- the loop of main

  /**
   * What the loop needs besides the markers: the regular files, and what
   * `upload_video` returns for each path (the video id, or `None`).
   */
  datatype Env = Env(regular: set<string>, reply: string -> Option<Json>)

  /** The marker files, and the files handed to the API so far. */
  datatype Disk = Disk(markers: map<string, string>, sent: seq<string>)

  function MarkerPath(path: string): string { path + ".uploaded" }

  /** What ends up in a marker: the id when it is a string; a non-string id fails to be written into the file that `open` created. */
  function MarkerText(id: Json): string {
    if id.Str? then id.s else ""
  }

  /** `upload_video` on a path: its title, the fixed description and tags, the settings, and the API's outcome. */
  function Replies(titles: map<string, string>, categoryId: string, privacy: string,
                   upload: (string, Json) -> UploadOutcome): string -> Option<Json>
  {
    path => UploadResult(upload(path, UploadBody(InferTitle(path, titles), Description, Tags, categoryId, privacy)))
  }

  /** One turn of the loop. */
  function Visit(d: Disk, path: string, env: Env): Disk {
    if path !in env.regular || MarkerPath(path) in d.markers then d
    else
      match env.reply(path)
      case Some(id) => Disk(d.markers[MarkerPath(path) := MarkerText(id)], d.sent + [path])
      case None => Disk(d.markers, d.sent + [path])
  }

  /** The loop over `files`. */
  function Run(files: seq<string>, d: Disk, env: Env): Disk {
    if files == [] then d else Visit(Run(files[..|files| - 1], d, env), files[|files| - 1], env)
  }

  /** The loop over one more file is one more turn. */
  lemma RunStep(files: seq<string>, i: nat, d: Disk, env: Env)
    requires i < |files|
    ensures Run(files[..i + 1], d, env) == Visit(Run(files[..i], d, env), files[i], env)
  {
    assert files[..i + 1][..i] == files[..i];
  }

  /** A turn on a file that is not regular, or already marked, changes nothing. */
  lemma VisitSkips(d: Disk, path: string, env: Env)
    requires path !in env.regular || MarkerPath(path) in d.markers
    ensures Visit(d, path, env) == d
  {
  }

  /** A turn on a regular, unmarked file sends it, and marks it when the upload returned an id. */
  lemma VisitUploads(d: Disk, path: string, env: Env)
    requires path in env.regular && MarkerPath(path) !in d.markers
    ensures var o := env.reply(path);
            Visit(d, path, env).sent == d.sent + [path] &&
            Visit(d, path, env).markers == if o.Some? then d.markers[MarkerPath(path) := MarkerText(o.value)] else d.markers
  {
  }

  /** One turn keeps every marker that exists, with its contents. */
  lemma VisitKeepsMarkers(d: Disk, path: string, env: Env)
    ensures d.markers.Keys <= Visit(d, path, env).markers.Keys
    ensures forall m :: m in d.markers ==> Visit(d, path, env).markers[m] == d.markers[m]
  {
    if path in env.regular && MarkerPath(path) !in d.markers {
      var o := env.reply(path);
      if o.Some? {
        assert Visit(d, path, env).markers == d.markers[MarkerPath(path) := MarkerText(o.value)];
      }
    }
  }

  /** Markers already on disk are never removed or rewritten. */
  lemma {:induction false} RunKeepsMarkers(files: seq<string>, d: Disk, env: Env)
    ensures d.markers.Keys <= Run(files, d, env).markers.Keys
    ensures forall m :: m in d.markers ==> Run(files, d, env).markers[m] == d.markers[m]
  {
    if files != [] {
      var init := files[..|files| - 1];
      RunKeepsMarkers(init, d, env);
      VisitKeepsMarkers(Run(init, d, env), files[|files| - 1], env);
    }
  }

  /** The files sent extend those sent before. */
  lemma {:induction false} RunExtendsSent(files: seq<string>, d: Disk, env: Env)
    ensures |d.sent| <= |Run(files, d, env).sent| && Run(files, d, env).sent[..|d.sent|] == d.sent
  {
    if files != [] {
      RunExtendsSent(files[..|files| - 1], d, env);
    }
  }

  /** A file is sent only when it is a regular file among `files` whose marker did not exist before the loop. */
  lemma {:induction false} RunSendsUnmarked(files: seq<string>, d: Disk, env: Env)
    ensures |d.sent| <= |Run(files, d, env).sent|
    ensures forall k :: |d.sent| <= k < |Run(files, d, env).sent| ==>
              Run(files, d, env).sent[k] in files && Run(files, d, env).sent[k] in env.regular && MarkerPath(Run(files, d, env).sent[k]) !in d.markers
  {
    RunExtendsSent(files, d, env);
    if files != [] {
      var init := files[..|files| - 1];
      var path := files[|files| - 1];
      var mid := Run(init, d, env);
      var after := Run(files, d, env);
      assert after == Visit(mid, path, env);
      RunSendsUnmarked(init, d, env);
      RunKeepsMarkers(init, d, env);
      VisitSent(mid, path, env);
      forall k | |d.sent| <= k < |after.sent|
        ensures after.sent[k] in files && after.sent[k] in env.regular && MarkerPath(after.sent[k]) !in d.markers
      {
        if k < |mid.sent| {
          assert after.sent[k] == mid.sent[k];
          assert mid.sent[k] in init;
        } else {
          assert after.sent[k] == path;
        }
      }
    }
  }

  /** A new marker belongs to a file sent in the loop whose upload returned an id, and holds that id. */
  lemma {:induction false} RunNewMarkers(files: seq<string>, d: Disk, env: Env, m: string) returns (p: string)
    requires m in Run(files, d, env).markers && m !in d.markers
    ensures p in Run(files, d, env).sent && m == MarkerPath(p)
    ensures env.reply(p).Some?
    ensures Run(files, d, env).markers[m] == MarkerText(env.reply(p).value)
  {
    var init := files[..|files| - 1];
    var before := Run(init, d, env);
    var path := files[|files| - 1];
    assert Run(files, d, env) == Visit(before, path, env);
    if m in before.markers {
      p := RunNewMarkers(init, d, env, m);
      VisitKeepsMarkers(before, path, env);
      VisitSent(before, path, env);
    } else {
      VisitNewMarker(before, path, env, m);
      p := path;
    }
  }

  /** A marker that one turn creates is its file's, which it sent, and holds the upload's id. */
  lemma VisitNewMarker(d: Disk, path: string, env: Env, m: string)
    requires m in Visit(d, path, env).markers && m !in d.markers
    ensures m == MarkerPath(path) && path in Visit(d, path, env).sent
    ensures env.reply(path).Some?
    ensures Visit(d, path, env).markers[m] == MarkerText(env.reply(path).value)
  {
  }

  /** One turn sends nothing, or its file when that is regular and unmarked. */
  lemma VisitSent(d: Disk, path: string, env: Env)
    ensures Visit(d, path, env).sent == d.sent ||
            (Visit(d, path, env).sent == d.sent + [path] && path in env.regular && MarkerPath(path) !in d.markers)
  {
  }

  /** A sorted list stays sorted when an element no smaller than any of its elements is appended. */
  lemma SortedSnoc(s: seq<string>, x: string)
    requires Sorted(s) && forall k :: 0 <= k < |s| ==> StrLe(s[k], x)
    ensures Sorted(s + [x])
  {
  }

  /** When the files come sorted, they are sent in sorted order. */
  lemma {:induction false} RunSendsInOrder(files: seq<string>, d: Disk, env: Env)
    requires Sorted(files)
    ensures |d.sent| <= |Run(files, d, env).sent| && Sorted(Run(files, d, env).sent[|d.sent|..])
  {
    RunExtendsSent(files, d, env);
    if files != [] {
      var init := files[..|files| - 1];
      var path := files[|files| - 1];
      assert Sorted(init);
      RunSendsInOrder(init, d, env);
      RunSendsUnmarked(init, d, env);
      var mid := Run(init, d, env);
      var before := mid.sent[|d.sent|..];
      forall k | 0 <= k < |before| ensures StrLe(before[k], path) {
        assert before[k] == mid.sent[|d.sent| + k];
        var j :| 0 <= j < |init| && init[j] == before[k];
        assert files[j] == init[j];
      }
      VisitSent(mid, path, env);
      if Visit(mid, path, env).sent != mid.sent {
        SortedSnoc(before, path);
        SuffixSnoc(mid.sent, |d.sent|, path);
      }
    }
  }

  /** When no file is listed twice (as `glob` guarantees), no file is sent twice. */
  lemma {:induction false} RunSendsOnce(files: seq<string>, d: Disk, env: Env)
    requires Distinct(files)
    ensures |d.sent| <= |Run(files, d, env).sent| && Distinct(Run(files, d, env).sent[|d.sent|..])
  {
    RunExtendsSent(files, d, env);
    if files != [] {
      var init := files[..|files| - 1];
      var path := files[|files| - 1];
      RunSendsOnce(init, d, env);
      RunSendsUnmarked(init, d, env);
      var mid := Run(init, d, env);
      var before := mid.sent[|d.sent|..];
      forall k | 0 <= k < |before| ensures before[k] != path {
        assert before[k] == mid.sent[|d.sent| + k];
        var j :| 0 <= j < |init| && init[j] == before[k];
        assert files[j] == init[j];
      }
      VisitSent(mid, path, env);
      if Visit(mid, path, env).sent != mid.sent {
        SuffixSnoc(mid.sent, |d.sent|, path);
      }
    }
  }

  /** The uploader over a filesystem whose only changing part is the set of marker files. */
  class Uploader {
    /** The `.uploaded` marker files: path to contents. */
    var markers: map<string, string>
    /** The files handed to `upload_video`, in order. */
    var sent: seq<string>
    /** Whether `get_authenticated_service` was called. */
    var authenticated: bool

    constructor(existing: map<string, string>)
      ensures markers == existing && sent == [] && !authenticated
    {
      markers := existing;
      sent := [];
      authenticated := false;
    }

    /** `main`, given what the glob matched and how `posts.json` read. */
    method UploadAll(globbed: seq<string>, posts: PostsFile, repr: Json -> string, regular: set<string>,
                     categoryId: string, privacy: string, upload: (string, Json) -> UploadOutcome)
      modifies this
      ensures globbed == [] ==> markers == old(markers) && sent == old(sent) && authenticated == old(authenticated)
      ensures globbed != [] ==> authenticated
      ensures globbed != [] ==>
        Disk(markers, sent) == Run(SortStrings(globbed), Disk(old(markers), old(sent)), Env(regular, Replies(TitleMap(posts, repr), categoryId, privacy, upload)))
    {
      var files := SortStrings(globbed);
      assert |files| == |globbed| by {
        assert |multiset(files)| == |multiset(globbed)|;
      }
      if files == [] {
        return;
      }
      var titleMap := LoadTitleMap(posts, repr);
      authenticated := true;
      UploadFiles(files, titleMap, regular, categoryId, privacy, upload);
    }

    /** The `for` loop of `main`, over the sorted files. */
    method UploadFiles(files: seq<string>, titleMap: map<string, string>, regular: set<string>,
                       categoryId: string, privacy: string, upload: (string, Json) -> UploadOutcome)
      modifies this
      ensures authenticated == old(authenticated)
      ensures Disk(markers, sent) == Run(files, Disk(old(markers), old(sent)), Env(regular, Replies(titleMap, categoryId, privacy, upload)))
    {
      ghost var env := Env(regular, Replies(titleMap, categoryId, privacy, upload));
      ghost var start := Disk(markers, sent);
      for i := 0 to |files|
        invariant authenticated == old(authenticated)
        invariant Disk(markers, sent) == Run(files[..i], start, env)
      {
        var path := files[i];
        RunStep(files, i, start, env);
        ghost var before := Disk(markers, sent);
        if path !in regular {
          VisitSkips(before, path, env);
          continue;
        }
        var markerPath := path + ".uploaded";
        if markerPath in markers {
          VisitSkips(before, path, env);
          continue;
        }
        var title := InferTitle(path, titleMap);
        var videoId := UploadResult(upload(path, UploadBody(title, Description, Tags, categoryId, privacy)));
        assert videoId == env.reply(path);
        VisitUploads(before, path, env);
        sent := sent + [path];
        if videoId.Some? {
          markers := markers[markerPath := MarkerText(videoId.value)];
        }
      }
      assert files[..|files|] == files;
    }
  }

  /**
   * What a run of `main` promises: files are sent in sorted order, each at
   * most once, only regular files without a marker are sent, old markers stay
   * as they were, and every new marker holds the id its upload returned.
   */
  lemma MainPromises(globbed: seq<string>, d: Disk, env: Env)
    requires Distinct(globbed)
    ensures var r := Run(SortStrings(globbed), d, env);
            |d.sent| <= |r.sent| &&
            Sorted(r.sent[|d.sent|..]) && Distinct(r.sent[|d.sent|..]) &&
            (forall k :: |d.sent| <= k < |r.sent| ==> r.sent[k] in globbed && r.sent[k] in env.regular && MarkerPath(r.sent[k]) !in d.markers) &&
            d.markers.Keys <= r.markers.Keys &&
            (forall m :: m in d.markers ==> r.markers[m] == d.markers[m])
  {
    var files := SortStrings(globbed);
    SortStringsSorted(globbed);
    SortStringsDistinct(globbed);
    RunExtendsSent(files, d, env);
    RunSendsInOrder(files, d, env);
    RunSendsOnce(files, d, env);
    RunSendsUnmarked(files, d, env);
    RunKeepsMarkers(files, d, env);
    forall p | p in files ensures p in globbed {
      assert p in multiset(files);
    }
  }
}
