/**
 * What travels between the client and the server: the request targets the
 * selector and the editor build, and what the server reads out of them.
 */
module Wire {

  import opened Wrappers
  import opened Common
  import opened Text
  import Utf8
  import PercentEncoding
  import Selector
  import Editor
  import ApiHandler

  /** The text before the first `#`: a fragment is not part of what is sent. */
  function BeforeFragment(s: string): (r: string)
    ensures '#' !in r
    ensures |r| <= |s| && s[..|r|] == r
    ensures '#' !in s ==> r == s
    ensures '#' in s ==> |r| < |s| && s[|r|] == '#'
  {
    if s == [] || s[0] == '#' then ""
    else [s[0]] + BeforeFragment(s[1..])
  }

  /** The `?query` text a split query stands for: empty when there is no query. */
  function QuerySuffix(query: Option<string>): string
  {
    if query.Some? then "?" + query.value else ""
  }

  /**
   * How a request target splits into the path (up to the first `?` or `#`)
   * and the query (after the `?`, up to the first `#`); a fragment (from the
   * `#` on) is dropped.
   */
  function SplitTarget(target: string): (r: (string, Option<string>))
    ensures '?' !in r.0 && '#' !in r.0
    ensures r.1.Some? ==> '#' !in r.1.value
    ensures '#' !in target && r.1.None? ==> r.0 == target
    ensures '#' !in target && r.1.Some? ==> r.0 + "?" + r.1.value == target
    ensures r.0 + QuerySuffix(r.1) == BeforeFragment(target)
  {
    var r := (
      if target == [] || target[0] == '#' then ("", None)
      else if target[0] == '?' then
        assert BeforeFragment(target) == "?" + BeforeFragment(target[1..]);
        ("", Some(BeforeFragment(target[1..])))
      else
        var rest := SplitTarget(target[1..]);
        SplitPastPlainChar(target, rest.0, rest.1);
        ([target[0]] + rest.0, rest.1));
    SplitOfWholeTarget(target, r.0, r.1);
    r
  }

  /**
   * A first character other than `?` and `#` joins the path: a split of the
   * rest extends to a split of the whole target.
   */
  lemma SplitPastPlainChar(target: string, path: string, query: Option<string>)
    requires target != [] && target[0] != '?' && target[0] != '#'
    requires '?' !in path && '#' !in path
    requires path + QuerySuffix(query) == BeforeFragment(target[1..])
    ensures '?' !in [target[0]] + path && '#' !in [target[0]] + path
    ensures [target[0]] + path + QuerySuffix(query) == BeforeFragment(target)
  {
    assert [target[0]] + path + QuerySuffix(query) == [target[0]] + (path + QuerySuffix(query));
  }

  /** A split that rebuilds the text before the fragment has a query without `#`, and rebuilds a `#`-free target whole. */
  lemma SplitOfWholeTarget(target: string, path: string, query: Option<string>)
    requires path + QuerySuffix(query) == BeforeFragment(target)
    ensures query.Some? ==> '#' !in query.value
    ensures '#' !in target && query.None? ==> path == target
    ensures '#' !in target && query.Some? ==> path + "?" + query.value == target
  {
    if query.Some? {
      assert path + "?" + query.value == BeforeFragment(target);
      assert forall k :: 0 <= k < |query.value| ==> query.value[k] == BeforeFragment(target)[|path| + 1 + k];
    } else {
      assert path + "" == path;
    }
  }

  /** A target whose path holds no `?` or `#`, and whose query no `#`, splits right after that path. */
  lemma {:induction false} SplitAfterPath(path: string, rest: Option<string>)
    requires '?' !in path && '#' !in path
    requires rest.Some? ==> '#' !in rest.value
    ensures SplitTarget(path + QuerySuffix(rest)) == (path, rest)
  {
    var tail := QuerySuffix(rest);
    if path != [] {
      assert (path + tail)[1..] == path[1..] + tail;
      assert path[0] in path;
      SplitAfterPath(path[1..], rest);
      assert [path[0]] + path[1..] == path;
    } else {
      assert path + tail == tail;
      if rest.Some? {
        assert tail[1..] == rest.value;
      }
    }
  }

  /** Everything from a `#` after a plain path on is dropped: the target splits into that path alone. */
  lemma {:induction false} SplitAtFragment(path: string, fragment: string)
    requires '?' !in path && '#' !in path
    ensures SplitTarget(path + "#" + fragment) == (path, None)
  {
    if path != [] {
      assert (path + "#" + fragment)[1..] == path[1..] + "#" + fragment;
      assert path[0] in path;
      SplitAtFragment(path[1..], fragment);
      assert [path[0]] + path[1..] == path;
    } else {
      assert path + "#" + fragment == "#" + fragment;
    }
  }

  /** The query the server sees for a listing request: none for empty input, else `key=` and the encoded input. */
  function ListingQuery(input: string): Option<string>
  {
    if input == "" then None else Some("key=" + PercentEncoding.Encode(Utf8.Encode(input)))
  }

  /** The selector's request target reaches the server as the listing path with the encoded key. */
  lemma ListingRequestReachesServer(input: string)
    ensures SplitTarget(Selector.FilesUrl(input)) == (ApiHandler.FilesPrefix, ListingQuery(input))
    ensures ApiHandler.RouteApi(ApiHandler.FilesPrefix) == ApiHandler.ListFiles
  {
    ListingTarget(input);
    ListingPathHasNoQuery();
    ListingQueryHasNoFragment(input);
    SplitAfterPath(ApiHandler.FilesPrefix, ListingQuery(input));
    ListingPathRoutes();
  }

  lemma ListingPathHasNoQuery()
    ensures '?' !in ApiHandler.FilesPrefix && '#' !in ApiHandler.FilesPrefix
  {
    assert forall i :: 0 <= i < |ApiHandler.FilesPrefix| ==> ApiHandler.FilesPrefix[i] != '?' && ApiHandler.FilesPrefix[i] != '#';
  }

  /** The listing query holds no `#`: the encoded input is letters, digits and `%`. */
  lemma ListingQueryHasNoFragment(input: string)
    ensures ListingQuery(input).Some? ==> '#' !in ListingQuery(input).value
  {
    if input != "" {
      var e := PercentEncoding.Encode(Utf8.Encode(input));
      var q := "key=" + e;
      forall i | 0 <= i < |q|
        ensures q[i] != '#'
      {
        if i >= 4 {
          assert q[i] == e[i - 4];
        }
      }
    }
  }

  lemma ListingTarget(input: string)
    ensures Selector.FilesUrl(input) ==
      ApiHandler.FilesPrefix + (if input == "" then "" else "?" + ListingQuery(input).value)
  {
    assert Selector.FilesPath == ApiHandler.FilesPrefix;
    if input != "" {
      QueryMark(PercentEncoding.Encode(Utf8.Encode(input)));
    }
  }

  lemma QueryMark(e: string)
    ensures "?key=" + e == "?" + ("key=" + e)
  {
    var q, r := "?key=" + e, "?" + ("key=" + e);
    assert |q| == |r|;
    forall i | 0 <= i < |q|
      ensures q[i] == r[i]
    {
      if i >= 5 {
        assert q[i] == e[i - 5] == r[i];
      }
    }
  }

  lemma ListingPathRoutes()
    ensures ApiHandler.RouteApi(ApiHandler.FilesPrefix) == ApiHandler.ListFiles
  {
    assert ApiHandler.FilesPrefix[..|ApiHandler.FilesPrefix|] == ApiHandler.FilesPrefix;
  }

  /** As written, the server filters by the percent-encoded text of the input, not by the input. */
  lemma ServerKeyIsEncodedInput(input: string)
    ensures ApiHandler.FilterKey(ListingQuery(input)) == Returns(PercentEncoding.Encode(Utf8.Encode(input)))
  {
    if input != "" {
      FindPrefix("key=", PercentEncoding.Encode(Utf8.Encode(input)));
    }
  }

  /** Typing "a b" does not find the note "a b": the server looks for "a%20b". */
  lemma EncodedKeyMissesNote()
    ensures ApiHandler.FilterKey(ListingQuery("a b")) == Returns("a%20b")
    ensures ApiHandler.ListItems([ApiHandler.Entry(Utf8.Encode("a b"))], "a%20b") == []
    ensures ApiHandler.ListItems([ApiHandler.Entry(Utf8.Encode("a b"))], "a b") == [Item("a b", File)]
  {
    var bytes := EncodeAB();
    ServerKeyIsEncodedInput("a b");
    Utf8.DecodeEncode("a b");
    var entries := [ApiHandler.Entry(bytes)];
    assert entries[1..] == [];
    assert ApiHandler.FileNames(entries) == ["a b"];
    assert !Contains("a b", "a%20b");
    assert ApiHandler.MatchingItems(["a b"], "a%20b") == [];
    assert OccursAt("a b", "a b", 0);
    assert ApiHandler.MatchingItems(["a b"], "a b") == [Item("a b", File)];
  }

  /** The bytes of "a b" and their encoding. */
  lemma EncodeAB() returns (bytes: seq<Utf8.byte>)
    ensures bytes == Utf8.Encode("a b") == [0x61, 0x20, 0x62]
    ensures PercentEncoding.Encode(bytes) == "a%20b"
  {
    var s := "a b";
    assert s[1..] == " b" && s[1..][1..] == "b" && s[1..][1..][1..] == "";
    bytes := Utf8.Encode(s);
    assert bytes == [0x61, 0x20, 0x62];
    assert bytes[1..] == [0x20, 0x62] && bytes[1..][1..] == [0x62] && bytes[1..][1..][1..] == [];
    assert PercentEncoding.EncodeByte(0x20) == "%20";
    assert PercentEncoding.EncodeByte(0x61) == "a" && PercentEncoding.EncodeByte(0x62) == "b";
    assert PercentEncoding.Encode([0x62]) == "b";
    assert PercentEncoding.Encode([0x20, 0x62]) == "%20b";
  }

  /** Decoding the key gives back exactly what was typed, for every input. */
  lemma DecodedKeyRoundTrip(input: string)
    ensures ApiHandler.DecodedFilterKey(ListingQuery(input)) == Returns(Some(input))
  {
    ServerKeyIsEncodedInput(input);
    PercentEncoding.DecodeEncode(Utf8.Encode(input));
    Utf8.DecodeEncode(input);
  }

  /** With the decoded key, the listing holds exactly the enumerated notes whose names contain the typed text. */
  lemma DecodedKeyListsTypedText(input: string, entries: seq<ApiHandler.DirEntry>, name: string)
    ensures var key := ApiHandler.DecodedFilterKey(ListingQuery(input));
      key == Returns(Some(input)) &&
      (Item(name, File) in ApiHandler.ListItems(entries, key.value.value) <==>
       Contains(name, input) && exists i :: 0 <= i < |entries| && entries[i] == ApiHandler.Entry(Utf8.Encode(name)))
  {
    DecodedKeyRoundTrip(input);
    ApiHandler.ListedExactly(entries, input, name);
  }

  /** As written, a note name with a `?` reaches the server cut short: "a?b" is read and written as note "a". */
  lemma QuestionMarkCutsNoteName()
    ensures SplitTarget(Editor.FileUrl("a?b")) == (ApiHandler.FilePrefix + "a", Some("b"))
    ensures ApiHandler.NoteName(ApiHandler.FilePrefix + "a") == "a"
  {
    assert Editor.FileUrl("a?b") == ApiHandler.FilePrefix + "a" + "?" + "b";
    SplitAfterPath(ApiHandler.FilePrefix + "a", Some("b"));
    ApiHandler.NotePathsReachNoteHandler("a");
  }

  /** As written, a note name with a `#` reaches the server cut short: "C#" is read and written as note "C". */
  lemma HashCutsNoteName()
    ensures SplitTarget(Editor.FileUrl("C#")) == (ApiHandler.FilePrefix + "C", None)
    ensures ApiHandler.NoteName(ApiHandler.FilePrefix + "C") == "C"
  {
    assert Editor.FileUrl("C#") == ApiHandler.FilePrefix + "C" + "#" + "";
    SplitAtFragment(ApiHandler.FilePrefix + "C", "");
    ApiHandler.NotePathsReachNoteHandler("C");
  }

  /** Without a `?` or `#` in the name, the editor's target reaches the note handler with that very name. */
  lemma PlainNoteNameReachesServer(name: string)
    requires '?' !in name && '#' !in name
    ensures SplitTarget(Editor.FileUrl(name)) == (ApiHandler.FilePrefix + name, None)
    ensures ApiHandler.RouteApi(ApiHandler.FilePrefix + name) == ApiHandler.FileContent
    ensures ApiHandler.NoteName(ApiHandler.FilePrefix + name) == name
  {
    SplitAfterPath(ApiHandler.FilePrefix + name, None);
    ApiHandler.NotePathsReachNoteHandler(name);
  }

  /** With the name encoded by the client and decoded by the server, every note name arrives intact. */
  lemma EncodedNoteNameRoundTrip(name: string)
    ensures var encoded := PercentEncoding.Encode(Utf8.Encode(name));
      SplitTarget(Editor.EncodedFileUrl(name)) == (ApiHandler.FilePrefix + encoded, None) &&
      ApiHandler.RouteApi(ApiHandler.FilePrefix + encoded) == ApiHandler.FileContent &&
      ApiHandler.DecodedNoteName(ApiHandler.FilePrefix + encoded) == Some(name)
  {
    var encoded := PercentEncoding.Encode(Utf8.Encode(name));
    PlainNoteNameReachesServer(encoded);
    PercentEncoding.DecodeEncode(Utf8.Encode(name));
    Utf8.DecodeEncode(name);
  }
}
