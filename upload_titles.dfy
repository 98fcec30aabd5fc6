/**
 * `load_title_map`: from the list of post records in `posts.json`, a map from
 * each author's safe name to the post's title. A missing file, a file that
 * cannot be read or decoded, and a value that is not a list all give an empty
 * map; the loop ends at the first item that is not a dict (its `.get` raises,
 * and the exception is reported and swallowed), keeping what it has collected.
 */
module UploadTitles {
  import opened Wrappers
  import opened Text
  import opened JsonValues
  import opened UploadNames

  /** What reading `posts.json` gives: no file, an error while reading or decoding, or a value. */
  datatype PostsFile = Missing | Unreadable | Parsed(data: Json)

  /** The entry an item adds: `safe_name(str(name))` to `str(post_title)`, when both are truthy. */
  function Entry(item: map<string, Json>, repr: Json -> string): Option<(string, string)> {
    var name := Get(item, "name");
    var title := Get(item, "post_title");
    if Truthy(name) && Truthy(title) then Some((SafeName(Show(name, repr)), Show(title, repr))) else None
  }

  /** How many items the loop gets through: all of them up to the first one that is not a dict. */
  function Reached(items: seq<Json>): (n: nat)
    ensures n <= |items|
    ensures forall k :: 0 <= k < n ==> items[k].Object?
    ensures n == |items| || !items[n].Object?
  {
    if items == [] || !items[0].Object? then 0
    else
      var rest := Reached(items[1..]);
      assert forall k :: 1 <= k < 1 + rest ==> items[k] == items[1..][k - 1];
      1 + rest
  }

  predicate AllDicts(items: seq<Json>, n: nat) {
    n <= |items| && forall k :: 0 <= k < n ==> items[k].Object?
  }

  /** The map after the first `n` items, later entries overwriting earlier ones. */
  function Collected(items: seq<Json>, n: nat, repr: Json -> string): map<string, string>
    requires AllDicts(items, n)
  {
    if n == 0 then map[]
    else
      var before := Collected(items, n - 1, repr);
      match Entry(items[n - 1].fields, repr)
      case Some((key, title)) => before[key := title]
      case None => before
  }

  /** What `load_title_map` returns. */
  function TitleMap(file: PostsFile, repr: Json -> string): (m: map<string, string>)
    ensures !(file.Parsed? && file.data.List?) ==> m == map[]
  {
    if file.Parsed? && file.data.List? then Collected(file.data.items, Reached(file.data.items), repr) else map[]
  }

  /** `load_title_map`, with the file already read and decoded. */
  method LoadTitleMap(file: PostsFile, repr: Json -> string) returns (mapping: map<string, string>)
    ensures mapping == TitleMap(file, repr)
  {
    mapping := map[];
    if !(file.Parsed? && file.data.List?) {
      return;
    }
    var data := file.data.items;
    var i := 0;
    while i < |data|
      invariant i <= Reached(data)
      invariant mapping == Collected(data, i, repr)
    {
      var item := data[i];
      if !item.Object? {
        // `item.get` raises; the handler reports it and the entries so far are returned.
        return;
      }
      var name := Get(item.fields, "name");
      var title := Get(item.fields, "post_title");
      if Truthy(name) && Truthy(title) {
        mapping := mapping[SafeName(Show(name, repr)) := Show(title, repr)];
      }
      i := i + 1;
    }
  }

  // ---------------------------------------------------------------- what the map holds

  /** Every key is a safe name. */
  lemma {:induction false} CollectedKeysSafe(items: seq<Json>, n: nat, repr: Json -> string)
    requires AllDicts(items, n)
    ensures forall key :: key in Collected(items, n, repr) ==> AllSafe(key)
  {
    if n > 0 {
      CollectedKeysSafe(items, n - 1, repr);
      var item := items[n - 1].fields;
      if Truthy(Get(item, "name")) {
        SafeNameChars(Show(Get(item, "name"), repr));
      }
    }
  }

  lemma TitleMapKeysSafe(file: PostsFile, repr: Json -> string)
    ensures forall key :: key in TitleMap(file, repr) ==> AllSafe(key)
  {
    if file.Parsed? && file.data.List? {
      CollectedKeysSafe(file.data.items, Reached(file.data.items), repr);
    }
  }

  /** Item `i` has an entry for `key`. */
  predicate EntryFor(items: seq<Json>, i: nat, key: string, repr: Json -> string)
    requires i < |items| && items[i].Object?
  {
    Entry(items[i].fields, repr).Some? && Entry(items[i].fields, repr).value.0 == key
  }

  /** A key in the map comes from an item. */
  lemma {:induction false} CollectedFrom(items: seq<Json>, n: nat, repr: Json -> string, key: string) returns (i: nat)
    requires AllDicts(items, n) && key in Collected(items, n, repr)
    ensures i < n && EntryFor(items, i, key, repr)
  {
    if EntryFor(items, n - 1, key, repr) {
      i := n - 1;
    } else {
      i := CollectedFrom(items, n - 1, repr, key);
    }
  }

  /** The last item with an entry for a key gives that key its title. */
  lemma {:induction false} CollectedLastWins(items: seq<Json>, n: nat, repr: Json -> string, i: nat)
    requires AllDicts(items, n) && i < n && Entry(items[i].fields, repr).Some?
    requires forall j :: i < j < n ==> !EntryFor(items, j, Entry(items[i].fields, repr).value.0, repr)
    ensures Entry(items[i].fields, repr).value.0 in Collected(items, n, repr)
    ensures Collected(items, n, repr)[Entry(items[i].fields, repr).value.0] == Entry(items[i].fields, repr).value.1
  {
    if i < n - 1 {
      CollectedLastWins(items, n - 1, repr, i);
      assert !EntryFor(items, n - 1, Entry(items[i].fields, repr).value.0, repr);
    }
  }

  /** Items after the first one that is not a dict are never looked at. */
  lemma StopsAtFirstNonDict(items: seq<Json>, rest: seq<Json>, repr: Json -> string)
    requires AllDicts(items, |items|) && rest != [] && !rest[0].Object?
    ensures TitleMap(Parsed(List(items + rest)), repr) == TitleMap(Parsed(List(items)), repr)
  {
    var all := items + rest;
    assert all[|items|] == rest[0];
    assert Reached(all) == |items|;
    CollectedPrefix(all, items, |items|, repr);
  }

  /** The map after `n` items depends on those items only. */
  lemma {:induction false} CollectedPrefix(all: seq<Json>, items: seq<Json>, n: nat, repr: Json -> string)
    requires AllDicts(items, n) && n <= |all| && all[..n] == items[..n]
    ensures AllDicts(all, n) && Collected(all, n, repr) == Collected(items, n, repr)
  {
    assert forall k :: 0 <= k < n ==> all[k] == all[..n][k] == items[..n][k] == items[k];
    if n > 0 {
      assert all[..n - 1] == all[..n][..n - 1];
      assert items[..n - 1] == items[..n][..n - 1];
      CollectedPrefix(all, items, n - 1, repr);
    }
  }
}
