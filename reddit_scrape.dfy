/**
 * `scrape_reddit`: the posts already saved in `posts.json` are read, and the
 * "hot" listing is walked in order, each submission counted as processed,
 * skipped when its id is already saved, when it has no author or when the
 * author is a moderator account, and otherwise turned into a post record;
 * the walk stops as soon as `target_count` records were collected, and the
 * saved posts followed by the new ones make up the result.
 * The listing is an input sequence, `json.loads` a parameter, and the file
 * write is the returned list.
 */
module RedditScrape {
  import opened Wrappers
  import opened Text
  import opened JsonValues

  /** A submission as the loop reads it; `author` is `None` for a deleted account. */
  datatype Submission = Submission(id: string, title: string, selftext: string, author: Option<string>)

  /** A post record of `posts.json`. */
  type Post = map<string, Json>

  /** What is found at `posts.json`: no file, or its text. */
  datatype PostsText = Absent | Present(content: string)

  /**
   * `old_posts`: the decoded file, or `[]` when the file is missing, holds
   * only whitespace, or does not decode (`decode` is `json.loads`, `None`
   * standing for its `JSONDecodeError`).
   */
  function OldPosts(file: PostsText, decode: string -> Option<Json>): (r: Json)
    ensures file.Absent? ==> r == List([])
    ensures file.Present? && AllSpace(file.content) ==> r == List([])
    ensures file.Present? && !AllSpace(file.content) && decode(Strip(file.content)).None? ==> r == List([])
    ensures file.Present? && !AllSpace(file.content) && decode(Strip(file.content)).Some? ==> r == decode(Strip(file.content)).value
  {
    match file
    case Absent => List([])
    case Present(content) =>
      var text := content;
      StripEmpty(text);
      var stripped := Strip(text);
      if stripped == "" then List([])
      else match decode(stripped)
        case Some(v) => v
        case None => List([])
  }

  /** Python can put the value in a set: lists and dicts are unhashable. */
  predicate Hashable(v: Json) {
    !v.List? && !v.Object?
  }

  /**
   * The loop can only run on a list of dicts whose ids can go into a set:
   * `post.get` fails on anything but a dict, the set comprehension on a list
   * or dict id, and `old_posts + new_posts` on anything but a list.
   */
  predicate Usable(saved: Json) {
    saved.List? &&
    forall k :: 0 <= k < |saved.items| ==> saved.items[k].Object? && Hashable(Get(saved.items[k].fields, "id"))
  }

  /** `existing_ids`: the `id` of every saved post, `None` for one without. */
  function ExistingIds(saved: seq<Json>): (ids: set<Json>)
    requires forall k :: 0 <= k < |saved| ==> saved[k].Object?
    ensures forall k :: 0 <= k < |saved| ==> Get(saved[k].fields, "id") in ids
    ensures forall v :: v in ids ==> exists k :: 0 <= k < |saved| && Get(saved[k].fields, "id") == v
  {
    set k | 0 <= k < |saved| :: Get(saved[k].fields, "id")
  }

  const Moderators: set<string> := {"AutoModerator", "AITAMod"}

  /** The three `continue`s of the loop. */
  predicate Skipped(s: Submission, existing: set<Json>) {
    Str(s.id) in existing || s.author.None? || s.author.value in Moderators
  }

  /** The record built from a submission that was not skipped. */
  function Record(s: Submission): (p: Post)
    requires s.author.Some?
    ensures p.Keys == {"id", "name", "submission_title", "submission_post"}
    ensures p["id"] == Str(s.id) && p["name"] == Str(s.author.value)
    ensures p["submission_title"] == Str(s.title) && p["submission_post"] == Str(s.selftext)
  {
    map["id" := Str(s.id), "name" := Str(s.author.value),
        "submission_title" := Str(s.title), "submission_post" := Str(s.selftext)]
  }

  /** The records of the submissions of `xs` that are not skipped, in listing order. */
  function Kept(xs: seq<Submission>, existing: set<Json>): seq<Post> {
    if xs == [] then []
    else
      var last := xs[|xs| - 1];
      Kept(xs[..|xs| - 1], existing) + (if Skipped(last, existing) then [] else [Record(last)])
  }

  /** There is at most one record per submission. */
  lemma {:induction false} KeptLength(xs: seq<Submission>, existing: set<Json>)
    ensures |Kept(xs, existing)| <= |xs|
  {
    if xs != [] {
      KeptLength(xs[..|xs| - 1], existing);
    }
  }

  /** Every record comes from a submission of `xs` that was not skipped. */
  lemma {:induction false} KeptFrom(xs: seq<Submission>, existing: set<Json>, k: nat) returns (j: nat)
    requires k < |Kept(xs, existing)|
    ensures j < |xs| && !Skipped(xs[j], existing) && Kept(xs, existing)[k] == Record(xs[j])
  {
    var init := xs[..|xs| - 1];
    if k < |Kept(init, existing)| {
      j := KeptFrom(init, existing, k);
    } else {
      j := |xs| - 1;
    }
  }

  /**
   * No new post repeats a saved id or comes from a deleted or moderator
   * account, and each has exactly the four keys of a record.
   */
  lemma NewPostsFiltered(xs: seq<Submission>, existing: set<Json>, k: nat)
    requires k < |Kept(xs, existing)|
    ensures Kept(xs, existing)[k].Keys == {"id", "name", "submission_title", "submission_post"}
    ensures Kept(xs, existing)[k]["id"] !in existing
    ensures Kept(xs, existing)[k]["name"] !in {Str("AutoModerator"), Str("AITAMod")}
  {
    var j := KeptFrom(xs, existing, k);
  }

  /** Selection works submission by submission: listing order is kept. */
  lemma {:induction false} KeptAppend(xs: seq<Submission>, ys: seq<Submission>, existing: set<Json>)
    ensures Kept(xs + ys, existing) == Kept(xs, existing) + Kept(ys, existing)
    decreases |ys|
  {
    if ys == [] {
      assert xs + ys == xs;
    } else {
      var init := ys[..|ys| - 1];
      assert (xs + ys)[..|xs + ys| - 1] == xs + init;
      KeptAppend(xs, init, existing);
    }
  }

  /**
   * `existing_ids` is not updated inside the loop: a submission listed twice
   * is added twice.
   */
  lemma RepeatedSubmissionKeptTwice(s: Submission, existing: set<Json>)
    requires !Skipped(s, existing)
    ensures Kept([s, s], existing) == [Record(s), Record(s)]
  {
    assert [s, s][..1] == [s];
    assert [s][..0] == [];
    assert Kept([s], existing) == [Record(s)];
  }

  /** One more submission examined: its record, unless it is skipped, follows the earlier ones. */
  lemma KeptStep(listing: seq<Submission>, existing: set<Json>, i: nat)
    requires i < |listing|
    ensures Kept(listing[..i + 1], existing)
         == Kept(listing[..i], existing) + (if Skipped(listing[i], existing) then [] else [Record(listing[i])])
  {
    assert listing[..i + 1][..i] == listing[..i];
  }

  /** The loop did not stop after any of the first `n` submissions: none of them brought the count to `target`. */
  predicate NoEarlierStop(listing: seq<Submission>, existing: set<Json>, target: int, n: nat)
    requires n <= |listing|
  {
    forall j :: 0 < j <= n && !Skipped(listing[j - 1], existing) ==> |Kept(listing[..j], existing)| < target
  }

  /** A submission that was skipped, or that left the count below `target`, does not stop the loop. */
  lemma NoEarlierStopStep(listing: seq<Submission>, existing: set<Json>, target: int, i: nat)
    requires i < |listing| && NoEarlierStop(listing, existing, target, i)
    requires Skipped(listing[i], existing) || |Kept(listing[..i + 1], existing)| < target
    ensures NoEarlierStop(listing, existing, target, i + 1)
  {
  }

  /** A submission whose record brings the count to `target` stops the loop. */
  lemma StopReached(listing: seq<Submission>, existing: set<Json>, target: int, n: nat)
    requires 0 < n <= |listing| && !Skipped(listing[n - 1], existing)
    requires |Kept(listing[..n], existing)| >= target
    ensures !NoEarlierStop(listing, existing, target, n)
  {
  }

  /**
   * The loop of `scrape_reddit`. It examines a prefix of the listing, the
   * new posts are the records kept from that prefix, and it stops either at
   * the end of the listing or right after the first record that brought the
   * count to `target`.
   */
  method SelectNewPosts(listing: seq<Submission>, existing: set<Json>, target: int)
    returns (newPosts: seq<Post>, processed: nat)
    ensures processed <= |listing|
    ensures newPosts == Kept(listing[..processed], existing)
    ensures |newPosts| <= processed
    ensures |newPosts| <= if target < 1 then 1 else target
    ensures NoEarlierStop(listing, existing, target, processed) ==> processed == |listing|
    ensures NoEarlierStop(listing, existing, target, processed) ||
              (0 < processed && !Skipped(listing[processed - 1], existing) && |newPosts| >= target &&
               NoEarlierStop(listing, existing, target, processed - 1))
  {
    newPosts := [];
    processed := 0;
    for i := 0 to |listing|
      invariant processed == i
      invariant newPosts == Kept(listing[..i], existing)
      invariant newPosts == [] || |newPosts| < target
      invariant NoEarlierStop(listing, existing, target, i)
    {
      var submission := listing[i];
      processed := processed + 1;
      KeptStep(listing, existing, i);
      if Str(submission.id) in existing {
        NoEarlierStopStep(listing, existing, target, i);
        continue;
      }
      if submission.author.None? {
        NoEarlierStopStep(listing, existing, target, i);
        continue;
      }
      if submission.author.value in Moderators {
        NoEarlierStopStep(listing, existing, target, i);
        continue;
      }
      var post := Record(submission);
      newPosts := newPosts + [post];
      if |newPosts| >= target {
        KeptLength(listing[..processed], existing);
        StopReached(listing, existing, target, processed);
        return;
      }
      NoEarlierStopStep(listing, existing, target, i);
    }
    assert listing[..|listing|] == listing;
    KeptLength(listing, existing);
  }

  /** Records as the JSON objects `json.dump` writes. */
  function AsJson(posts: seq<Post>): (r: seq<Json>)
    ensures |r| == |posts| && forall k :: 0 <= k < |r| ==> r[k] == Object(posts[k])
  {
    seq(|posts|, k requires 0 <= k < |posts| => Object(posts[k]))
  }

  /** How `scrape_reddit` ends: the list it writes back, or an exception before the write. */
  datatype Outcome = Saved(allPosts: seq<Json>, newCount: nat, processed: nat) | Crashed

  /**
   * `scrape_reddit`: the saved posts stay in front, unchanged and in order,
   * and the new records follow them in listing order.
   */
  method ScrapeReddit(file: PostsText, decode: string -> Option<Json>, listing: seq<Submission>, target: int)
    returns (r: Outcome)
    ensures r.Crashed? <==> !Usable(OldPosts(file, decode))
    ensures r.Saved? ==>
              var saved := OldPosts(file, decode).items;
              r.processed <= |listing| &&
              r.allPosts == saved + AsJson(Kept(listing[..r.processed], ExistingIds(saved))) &&
              r.newCount == |Kept(listing[..r.processed], ExistingIds(saved))| &&
              r.newCount <= (if target < 1 then 1 else target)
    ensures r.Saved? ==>
              var ids := ExistingIds(OldPosts(file, decode).items);
              r.processed <= |listing| &&
              (NoEarlierStop(listing, ids, target, r.processed) ==> r.processed == |listing|) &&
              (NoEarlierStop(listing, ids, target, r.processed) ||
                 (0 < r.processed && !Skipped(listing[r.processed - 1], ids) && r.newCount >= target &&
                  NoEarlierStop(listing, ids, target, r.processed - 1)))
  {
    var oldPosts := OldPosts(file, decode);
    if !Usable(oldPosts) {
      return Crashed;
    }
    var existingIds := ExistingIds(oldPosts.items);
    var newPosts, processed := SelectNewPosts(listing, existingIds, target);
    var allPosts := oldPosts.items + AsJson(newPosts);
    r := Saved(allPosts, |newPosts|, processed);
  }
}
