/** The recents tool (modules/ui/tools/quick_presets_recent.js): up to five
    recently used presets that are not favourites, drawn after the favourites
    and labelled on the number row. */
module QuickPresetsRecent {
  import opened Common
  import opened Strings
  import opened QuickPresetItems
  import QuickPresetsFavorites

  const TOOL_ID: string := "add_recent"

  /** `maxShown`: the favourites counted, and the room on the number row. */
  const MAX_SHOWN: nat := 10

  /** `maxRecents` before it is lowered for the favourites. */
  const MAX_RECENTS: nat := 5

  /** The geometry test of the recents filter; `geometry[0]` of an empty list
      is undefined, which is not 'relation'. */
  function Drawable(item: PresetItem): (r: bool)
    ensures r <==> item.preset.geometry != ["relation"]
  {
    |item.preset.geometry| > 1 || |item.preset.geometry| == 0 || item.preset.geometry[0] != "relation"
  }

  /** `Math.min(maxRecents, maxShown - favoritesCount)`. */
  function RecentLimit(favoritesCount: nat): (n: int)
    ensures n <= MAX_RECENTS
    ensures favoritesCount <= MAX_SHOWN ==> 0 <= n && favoritesCount + n <= MAX_SHOWN
    ensures favoritesCount <= MAX_SHOWN - MAX_RECENTS ==> n == MAX_RECENTS
  {
    Min(MAX_RECENTS, MAX_SHOWN - favoritesCount)
  }

  /** `isAFavorite(recent)`; `matches(f, p)` stands for `favorite.matches(p)`. */
  predicate IsAFavorite(favorites: seq<PresetItem>, recent: PresetItem, matches: (Preset, Preset) -> bool) {
    exists i | 0 <= i < |favorites| :: matches(favorites[i].preset, recent.preset)
  }

  /** The test of the loop over the recents. */
  function NotAFavorite(favorites: seq<PresetItem>, matches: (Preset, Preset) -> bool): PresetItem -> bool {
    (r: PresetItem) => !IsAFavorite(favorites, r, matches)
  }

  lemma NotAFavoriteApplies(favorites: seq<PresetItem>, matches: (Preset, Preset) -> bool, r: PresetItem)
    ensures NotAFavorite(favorites, matches)(r) <==> !IsAFavorite(favorites, r, matches)
  {
  }

  /** The drawable recents that match no favourite, in order. */
  function Candidates(favorites: seq<PresetItem>, recents: seq<PresetItem>, matches: (Preset, Preset) -> bool): seq<PresetItem> {
    Filter(Filter(recents, Drawable), NotAFavorite(favorites, matches))
  }

  /** The recents drawn, given the lowered limit. */
  function RecentsShown(favorites: seq<PresetItem>, recents: seq<PresetItem>, matches: (Preset, Preset) -> bool,
                        limit: int): seq<PresetItem>
  {
    if limit <= 0 then [] else Take(Candidates(favorites, recents, matches), limit)
  }

  /** What is drawn are recents, in their order, drawable and matching no
      favourite; there are at most `limit` of them, and fewer only when no other
      candidate is left. */
  lemma RecentsShownSpec(favorites: seq<PresetItem>, recents: seq<PresetItem>, matches: (Preset, Preset) -> bool, limit: int)
    ensures var r := RecentsShown(favorites, recents, matches, limit);
      && |r| <= (if limit <= 0 then 0 else limit)
      && IsSubsequence(r, recents)
      && (forall x :: x in r ==> x in recents && Drawable(x) && !IsAFavorite(favorites, x, matches))
      && (limit > 0 && |r| < limit ==>
            forall x :: x in recents && Drawable(x) && !IsAFavorite(favorites, x, matches) ==> x in r)
  {
    var p := NotAFavorite(favorites, matches);
    var drawable := Filter(recents, Drawable);
    FilterSpec(recents, Drawable);
    FilterSpec(drawable, p);
    var c := Candidates(favorites, recents, matches);
    assert c == Filter(drawable, p);
    var r := RecentsShown(favorites, recents, matches, limit);
    if limit > 0 {
      assert r == c[..|r|];
      PrefixIsSubsequence(c, |r|);
      SubsequenceTrans(r, c, drawable);
      SubsequenceTrans(r, drawable, recents);
      forall x | x in r ensures x in recents && Drawable(x) && !IsAFavorite(favorites, x, matches) {
        var k :| 0 <= k < |r| && r[k] == x;
        assert c[k] == x;
        assert x in c;
        assert x in drawable;
        assert p(x);
        NotAFavoriteApplies(favorites, matches, x);
      }
      if |r| < limit {
        assert r == c;
        forall x | x in recents && Drawable(x) && !IsAFavorite(favorites, x, matches) ensures x in r {
          NotAFavoriteApplies(favorites, matches, x);
        }
      }
    }
  }

  /** `item.key = keyCode.toString()` where a key code is chosen, for the item
      at each index, under the given label rule. */
  method AssignRecentKeys(items: seq<PresetItem>, favoritesCount: nat, rule: LabelRule)
    requires NoDuplicates(items)
    modifies Items(items)
    ensures forall k :: 0 <= k < |items| ==>
      items[k].key == if Label(rule, favoritesCount + k).Some? then Label(rule, favoritesCount + k) else old(items[k].key)
  {
    var index := 0;
    while index < |items|
      invariant 0 <= index <= |items|
      invariant forall k :: 0 <= k < index ==>
        items[k].key == if Label(rule, favoritesCount + k).Some? then Label(rule, favoritesCount + k) else old(items[k].key)
      invariant forall k :: index <= k < |items| ==> items[k].key == old(items[k].key)
    {
      var totalIndex := favoritesCount + index;
      var key := Label(rule, totalIndex);
      if key.Some? {
        items[index].key := key;
      }
      index := index + 1;
    }
  }

  /** The selection part of `tool.itemsToDraw()`: the drawable recents are
      scanned in order, non-favourites are kept, and the scan stops once the
      limit is reached. */
  method SelectRecents(addableCount: nat, allFavorites: seq<PresetItem>, allRecents: seq<PresetItem>,
                       matches: (Preset, Preset) -> bool)
    returns (items: seq<PresetItem>, favoritesCount: nat)
    ensures favoritesCount == Min(|allFavorites|, MAX_SHOWN)
    ensures addableCount > 0 ==> items == []
    ensures addableCount == 0 ==>
      items == RecentsShown(Take(allFavorites, MAX_SHOWN), allRecents, matches, RecentLimit(favoritesCount))
  {
    var favorites := Take(allFavorites, MAX_SHOWN);
    favoritesCount := |favorites|;
    if addableCount > 0 {
      return [], favoritesCount;
    }
    var maxRecents := RecentLimit(favoritesCount);
    items := [];
    if maxRecents > 0 {
      var recents := Filter(allRecents, Drawable);
      var p := NotAFavorite(favorites, matches);
      var i := 0;
      while i < |recents|
        invariant 0 <= i <= |recents|
        invariant items == Filter(recents[..i], p)
        invariant |items| < maxRecents
      {
        FilterAppend(recents[..i], [recents[i]], p);
        assert recents[..i + 1] == recents[..i] + [recents[i]];
        NotAFavoriteApplies(favorites, matches, recents[i]);
        if !IsAFavorite(favorites, recents[i], matches) {
          items := items + [recents[i]];
          if |items| == maxRecents {
            FilterAppend(recents[..i + 1], recents[i + 1..], p);
            assert recents[..i + 1] + recents[i + 1..] == recents;
            return;
          }
        }
        i := i + 1;
      }
      assert recents[..i] == recents;
    }
  }

  /** `tool.itemsToDraw()`: nothing while presets are being added; otherwise
      the recents shown after the first ten favourites, each labelled by its
      place on the number row. */
  method ItemsToDraw(addableCount: nat, allFavorites: seq<PresetItem>, allRecents: seq<PresetItem>,
                     matches: (Preset, Preset) -> bool, rule: LabelRule)
    returns (items: seq<PresetItem>)
    requires NoDuplicates(allRecents)
    modifies Items(allRecents)
    ensures addableCount > 0 ==> items == []
    ensures addableCount == 0 ==>
      items == RecentsShown(Take(allFavorites, MAX_SHOWN), allRecents, matches, RecentLimit(Min(|allFavorites|, MAX_SHOWN)))
    ensures rule == AsWrittenRule ==>
      forall k :: 0 <= k < |items| ==> items[k].key == RecentKey(Min(|allFavorites|, MAX_SHOWN) + k)
    ensures rule == ContinuedRule ==>
      forall k :: 0 <= k < |items| ==> items[k].key == ContinuedKey(Min(|allFavorites|, MAX_SHOWN) + k)
    ensures forall x :: x in allRecents && x !in items ==> x.key == old(x.key)
  {
    var favoritesCount;
    items, favoritesCount := SelectRecents(addableCount, allFavorites, allRecents, matches);
    if addableCount > 0 {
      return;
    }
    var favorites := Take(allFavorites, MAX_SHOWN);
    var limit := RecentLimit(favoritesCount);
    RecentsShownNoDuplicates(favorites, allRecents, matches, limit);
    RecentsShownSpec(favorites, allRecents, matches, limit);
    EveryShownRecentHasKey(favorites, allRecents, matches);
    AssignRecentKeys(items, favoritesCount, rule);
  }

  lemma RecentsShownNoDuplicates(favorites: seq<PresetItem>, recents: seq<PresetItem>, matches: (Preset, Preset) -> bool, limit: int)
    requires NoDuplicates(recents)
    ensures NoDuplicates(RecentsShown(favorites, recents, matches, limit))
  {
    if limit > 0 {
      FilterNoDuplicates(recents, Drawable);
      FilterNoDuplicates(Filter(recents, Drawable), NotAFavorite(favorites, matches));
    }
  }

  // ---------------------------------------------------------------------------
  // Labels

  /** The label rule as written: total index 9 gets "0", a smaller one its
      successor, anything from 10 on none. */
  function RecentKey(totalIndex: nat): (key: Option<string>)
    ensures key.Some? <==> totalIndex < 10
    ensures totalIndex == 9 ==> key == Some("0")
    ensures totalIndex < 9 ==> key == Some(NatToString(totalIndex + 1)) && key.value == [DigitChar(totalIndex + 1)]
  {
    if totalIndex == 9 then Some(NatToString(0))
    else if totalIndex < 10 then Some(NatToString(totalIndex + 1))
    else None
  }

  /** The label rule the favourites tool uses, carried on past the favourites:
      total index i gets "i" while on the number row. */
  function ContinuedKey(totalIndex: nat): (key: Option<string>)
    ensures key.Some? <==> totalIndex < 10
    ensures key.Some? ==> key.value == [DigitChar(totalIndex)]
  {
    if totalIndex < 10 then Some(NatToString(totalIndex)) else None
  }

  /** Which label rule the recents follow: the source's, or the favourites'
      numbering carried on. */
  datatype LabelRule = AsWrittenRule | ContinuedRule

  function Label(rule: LabelRule, totalIndex: nat): (key: Option<string>)
    ensures key.Some? <==> totalIndex < 10
  {
    match rule
    case AsWrittenRule => RecentKey(totalIndex)
    case ContinuedRule => ContinuedKey(totalIndex)
  }

  /** Because of the limit, every recent drawn is on the number row and gets
      a label, under either rule. */
  lemma EveryShownRecentHasKey(favorites: seq<PresetItem>, recents: seq<PresetItem>, matches: (Preset, Preset) -> bool)
    requires |favorites| <= MAX_SHOWN
    ensures |favorites| + |RecentsShown(favorites, recents, matches, RecentLimit(|favorites|))| <= MAX_SHOWN
  {
    RecentsShownSpec(favorites, recents, matches, RecentLimit(|favorites|));
  }

  /** As written, the two tools can hand out the same label: with five to nine
      favourites the recent at total index 9 gets "0", which the favourites
      tool gives to its first item. */
  lemma RecentKeyCollidesWithFavorite(favoritesCount: nat)
    requires MAX_SHOWN - MAX_RECENTS <= favoritesCount < MAX_SHOWN
    ensures var index := 9 - favoritesCount;
      index < RecentLimit(favoritesCount) &&
      RecentKey(favoritesCount + index) == Some(QuickPresetsFavorites.FavoriteKey(0))
  {
  }

  /** With the continued rule no recent drawn shares a label with a favourite
      drawn, and recents have distinct labels. */
  lemma ContinuedKeysDistinct(favoritesCount: nat, i: nat, k: nat, k': nat)
    requires favoritesCount <= MAX_SHOWN && i < favoritesCount
    requires k < RecentLimit(favoritesCount) && k' < RecentLimit(favoritesCount) && k != k'
    ensures QuickPresetsFavorites.FavoriteKey(i) != ContinuedKey(favoritesCount + k).value
    ensures ContinuedKey(favoritesCount + k) != ContinuedKey(favoritesCount + k')
  {
    assert QuickPresetsFavorites.FavoriteKey(i)[0] == DigitChar(i);
    assert ContinuedKey(favoritesCount + k).value[0] != ContinuedKey(favoritesCount + k').value[0];
  }
}
