/** The index list of a posted search form (`processPostRequest`): the ids
    of the ticked bookmarks, each followed by a space, then the free-text
    index field; the whole trimmed, and the default index when nothing is
    left. */
module IndexList {
  import opened JavaStrings

  /** The name of the form's free-text index field. */
  const IndexPart: string := "index"

  /** The part names `prefix + bm` that the request sets, for the bookmarks
      `bm` in the order the library lists them. */
  function Ticked(prefix: string, bookmarks: seq<string>, parts: set<string>): (ids: seq<string>)
    ensures |ids| <= |bookmarks|
    ensures forall k | 0 <= k < |ids| :: ids[k] in parts
    decreases |bookmarks|
  {
    if bookmarks == [] then []
    else
      var front := Ticked(prefix, bookmarks[..|bookmarks| - 1], parts);
      var id := prefix + bookmarks[|bookmarks| - 1];
      if id in parts then front + [id] else front
  }

  /** Each id followed by one space. */
  function Spaced(ids: seq<string>): string {
    if ids == [] then "" else ids[0] + " " + Spaced(ids[1..])
  }

  /** The string before trimming: the spaced ticked ids, then the text of the
      index field when the request sets it. */
  function Raw(prefix: string, bookmarks: seq<string>, parts: set<string>, indexText: string): string {
    Spaced(Ticked(prefix, bookmarks, parts)) + (if IndexPart in parts then indexText else "")
  }

  /** The index list the search is started with. */
  function IndexUri(prefix: string, defaultIndex: string, bookmarks: seq<string>, parts: set<string>, indexText: string): string {
    TrimOrDefault(Raw(prefix, bookmarks, parts, indexText), defaultIndex)
  }

  /** `raw.trim()`, or the default when that is empty. */
  function TrimOrDefault(raw: string, defaultIndex: string): string {
    var t := Trim(raw);
    if t == "" then defaultIndex else t
  }

  /** The loop of `processPostRequest` that builds the index list. */
  method AssembleIndexList(prefix: string, defaultIndex: string, bookmarks: seq<string>, parts: set<string>, indexText: string)
    returns (indexUri: string)
    ensures indexUri == IndexUri(prefix, defaultIndex, bookmarks, parts, indexText)
  {
    indexUri := "";
    for i := 0 to |bookmarks|
      invariant indexUri == Spaced(Ticked(prefix, bookmarks[..i], parts))
    {
      var bmid := prefix + bookmarks[i];
      assert bookmarks[..i + 1][..i] == bookmarks[..i];
      if bmid in parts {
        SpacedSnoc(Ticked(prefix, bookmarks[..i], parts), bmid);
        indexUri := indexUri + bmid + " ";
      }
    }
    assert bookmarks[..|bookmarks|] == bookmarks;
    if IndexPart in parts {
      indexUri := indexUri + indexText;
    } else {
      assert indexUri + "" == indexUri;
    }
    assert indexUri == Raw(prefix, bookmarks, parts, indexText);
    indexUri := Trim(indexUri);
    if indexUri == "" {
      indexUri := defaultIndex;
    }
  }

  lemma {:induction false} SpacedSnoc(ids: seq<string>, id: string)
    ensures Spaced(ids + [id]) == Spaced(ids) + id + " "
  {
    if ids == [] {
      assert [] + [id] == [id];
    } else {
      assert (ids + [id])[1..] == ids[1..] + [id];
      SpacedSnoc(ids[1..], id);
    }
  }

  /** The spaced ids are the ids joined by single spaces, plus one trailing
      space. */
  lemma {:induction false} SpacedJoin(ids: seq<string>)
    requires ids != []
    ensures Spaced(ids) == Join(ids, ' ') + " "
  {
    if |ids| > 1 {
      SpacedJoin(ids[1..]);
    } else {
      assert ids[1..] == [];
    }
  }

  /** A part name is among the ticked ids exactly when the request sets it and
      it is the prefix followed by one of the bookmarks. */
  lemma {:induction false} TickedMembers(prefix: string, bookmarks: seq<string>, parts: set<string>, id: string)
    ensures id in Ticked(prefix, bookmarks, parts) <==>
      id in parts && exists k | 0 <= k < |bookmarks| :: id == prefix + bookmarks[k]
    decreases |bookmarks|
  {
    if bookmarks != [] {
      var front := bookmarks[..|bookmarks| - 1];
      TickedMembers(prefix, front, parts, id);
      if exists k | 0 <= k < |bookmarks| :: id == prefix + bookmarks[k] {
        var k :| 0 <= k < |bookmarks| && id == prefix + bookmarks[k];
        if k < |front| {
          assert front[k] == bookmarks[k];
        }
      }
      if exists k | 0 <= k < |front| :: id == prefix + front[k] {
        var k :| 0 <= k < |front| && id == prefix + front[k];
        assert bookmarks[k] == front[k];
      }
    }
  }

  /** The spaced ids are blank exactly when every id is. */
  lemma {:induction false} SpacedBlank(ids: seq<string>)
    ensures IsBlank(Spaced(ids)) <==> forall k | 0 <= k < |ids| :: IsBlank(ids[k])
  {
    if ids != [] {
      SpacedBlank(ids[1..]);
      BlankConcat(ids[0], " ");
      BlankConcat(ids[0] + " ", Spaced(ids[1..]));
      if forall k | 0 <= k < |ids| :: IsBlank(ids[k]) {
        assert forall k | 0 <= k < |ids| - 1 :: ids[1..][k] == ids[k + 1];
      }
      if IsBlank(ids[0]) && forall k | 0 <= k < |ids| - 1 :: IsBlank(ids[1..][k]) {
        forall k | 0 <= k < |ids| ensures IsBlank(ids[k]) {
          if k > 0 {
            assert ids[k] == ids[1..][k - 1];
          }
        }
      }
    }
  }

  /** The default index is taken exactly when nothing but space was ticked or
      typed; otherwise the list is the trimmed string, which neither starts nor
      ends with space. */
  lemma IndexUriCases(prefix: string, defaultIndex: string, bookmarks: seq<string>, parts: set<string>, indexText: string)
    ensures var raw := Raw(prefix, bookmarks, parts, indexText);
      var r := IndexUri(prefix, defaultIndex, bookmarks, parts, indexText);
      && (IsBlank(raw) ==> r == defaultIndex)
      && (!IsBlank(raw) ==> r == Trim(raw) && r != [] && !IsSpace(r[0]) && !IsSpace(r[|r| - 1]))
  {
    TrimOrDefaultCases(Raw(prefix, bookmarks, parts, indexText), defaultIndex);
  }

  lemma TrimOrDefaultCases(raw: string, defaultIndex: string)
    ensures var r := TrimOrDefault(raw, defaultIndex);
      && (IsBlank(raw) ==> r == defaultIndex)
      && (!IsBlank(raw) ==> r == Trim(raw) && r != [] && !IsSpace(r[0]) && !IsSpace(r[|r| - 1]))
  {
    TrimEmptyIffBlank(raw);
    TrimSlice(raw);
  }

  /** With a prefix that is not blank, nothing but space is ticked or typed
      exactly when no bookmark is ticked and the index field is blank or
      absent. */
  lemma RawBlank(prefix: string, bookmarks: seq<string>, parts: set<string>, indexText: string)
    requires !IsBlank(prefix)
    ensures IsBlank(Raw(prefix, bookmarks, parts, indexText)) <==>
      Ticked(prefix, bookmarks, parts) == [] && (IndexPart in parts ==> IsBlank(indexText))
  {
    var ids := Ticked(prefix, bookmarks, parts);
    SpacedBlank(ids);
    BlankConcat(Spaced(ids), if IndexPart in parts then indexText else "");
    if ids != [] {
      TickedMembers(prefix, bookmarks, parts, ids[0]);
      var k :| 0 <= k < |bookmarks| && ids[0] == prefix + bookmarks[k];
      BlankConcat(prefix, bookmarks[k]);
    }
  }

  /** Without the index field, and with ticked ids that neither start nor end
      with space, the list is the ids joined by single spaces. */
  lemma IndexUriOfBookmarks(prefix: string, defaultIndex: string, bookmarks: seq<string>, parts: set<string>, indexText: string)
    requires IndexPart !in parts
    requires var ids := Ticked(prefix, bookmarks, parts);
      && ids != []
      && forall k | 0 <= k < |ids| :: ids[k] != [] && !IsSpace(ids[k][0]) && !IsSpace(ids[k][|ids[k]| - 1])
    ensures IndexUri(prefix, defaultIndex, bookmarks, parts, indexText) == Join(Ticked(prefix, bookmarks, parts), ' ')
  {
    var ids := Ticked(prefix, bookmarks, parts);
    SpacedJoin(ids);
    JoinEnds(ids, ' ');
    assert Raw(prefix, bookmarks, parts, indexText) == Join(ids, ' ') + " ";
    TrimPadded(Join(ids, ' '), " ");
  }

  /** A join of non-empty fields starts with the first field's first
      character and ends with the last field's last character. */
  lemma {:induction false} JoinEnds(fs: seq<string>, c: char)
    requires fs != [] && forall k | 0 <= k < |fs| :: fs[k] != []
    ensures var j := Join(fs, c);
      |j| > 0 && j[0] == fs[0][0] && j[|j| - 1] == fs[|fs| - 1][|fs[|fs| - 1]| - 1]
  {
    if |fs| > 1 {
      var tail := fs[1..];
      forall k | 0 <= k < |tail| ensures tail[k] != [] {
        assert tail[k] == fs[k + 1];
      }
      JoinEnds(tail, c);
      var rest := Join(tail, c);
      assert Join(fs, c) == fs[0] + [c] + rest;
      assert tail[|tail| - 1] == fs[|fs| - 1];
    }
  }
}
