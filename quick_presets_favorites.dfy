/** The favourites tool (modules/ui/tools/quick_presets_favorites.js): the first
    thirty favourite presets, labelled 0-9 and then A-T. */
module QuickPresetsFavorites {
  import opened Common
  import opened Strings
  import opened QuickPresetItems

  const TOOL_ID: string := "add_favorite"

  /** `getFavorites().slice(0, 30)`. */
  const MAX_FAVORITES: nat := 30

  /** The items of tools drawn before this one; fixed at zero. */
  const PRECEDING_COUNT: nat := 0

  /** The label of the item at a total index: the index itself for 0 to 9, then
      the character with code index + 55, which is 'A' for 10 and 'T' for 29. */
  function FavoriteKey(totalIndex: nat): (key: string)
    requires totalIndex < MAX_FAVORITES
    ensures |key| == 1
    ensures totalIndex <= 9 ==> key == NatToString(totalIndex) && key[0] == DigitChar(totalIndex)
    ensures totalIndex > 9 ==> key[0] as int == totalIndex + 55 && 'A' <= key[0] <= 'T'
  {
    var keyCode := if totalIndex <= 9 then totalIndex else totalIndex + 55;
    if keyCode >= 65 then [keyCode as char] else NatToString(keyCode)
  }

  /** No two favourites share a label. */
  lemma FavoriteKeysDistinct(i: nat, j: nat)
    requires i < MAX_FAVORITES && j < MAX_FAVORITES && i != j
    ensures FavoriteKey(i) != FavoriteKey(j)
  {
    var a, b := FavoriteKey(i), FavoriteKey(j);
    assert a[0] != b[0];
  }

  /** `item.key = ...` for every item, in list order. */
  method AssignFavoriteKeys(items: seq<PresetItem>)
    requires |items| <= MAX_FAVORITES && NoDuplicates(items)
    modifies Items(items)
    ensures forall k :: 0 <= k < |items| ==> items[k].key == Some(FavoriteKey(PRECEDING_COUNT + k))
  {
    var index := 0;
    while index < |items|
      invariant 0 <= index <= |items|
      invariant forall k :: 0 <= k < index ==> items[k].key == Some(FavoriteKey(PRECEDING_COUNT + k))
    {
      var totalIndex := PRECEDING_COUNT + index;
      items[index].key := Some(FavoriteKey(totalIndex));
      index := index + 1;
    }
  }

  /** `tool.itemsToDraw()`: nothing while presets are being added, otherwise the
      first thirty favourites, each labelled by its position. */
  method ItemsToDraw(addableCount: nat, favorites: seq<PresetItem>) returns (items: seq<PresetItem>)
    requires NoDuplicates(favorites)
    modifies Items(favorites)
    ensures addableCount > 0 ==> items == []
    ensures addableCount == 0 ==> items == Take(favorites, MAX_FAVORITES)
    ensures forall k :: 0 <= k < |items| ==> items[k].key == Some(FavoriteKey(k))
    ensures forall x :: x in favorites && x !in items ==> x.key == old(x.key)
  {
    if addableCount > 0 {
      return [];
    }
    items := Take(favorites, MAX_FAVORITES);
    assert NoDuplicates(items);
    AssignFavoriteKeys(items);
  }

  /** The labels `willUpdate` unbinds: `i.toString()` for i from 0 to 29. */
  function UnboundKeys(): (keys: seq<string>)
    ensures |keys| == MAX_FAVORITES
    ensures forall i :: 0 <= i < |keys| ==> keys[i] == NatToString(i)
  {
    seq(MAX_FAVORITES, i requires 0 <= i < MAX_FAVORITES => NatToString(i))
  }

  /** `tool.willUpdate()`: one unbind per counter value, in order. */
  method WillUpdate() returns (unbound: seq<string>)
    ensures unbound == UnboundKeys()
  {
    unbound := [];
    var i := 0;
    while i <= 29
      invariant 0 <= i <= 30
      invariant |unbound| == i && forall k :: 0 <= k < i ==> unbound[k] == NatToString(k)
    {
      unbound := unbound + [NatToString(i)];
      i := i + 1;
    }
  }

  /** The unbinding covers the digit labels 0-9 of the first ten favourites but
      none of the letter labels A-T; the labels "10" to "29" it unbinds are
      never assigned by this tool. */
  lemma UnbindingMissesLetters()
    ensures forall i :: 0 <= i <= 9 ==> FavoriteKey(i) in UnboundKeys()
    ensures forall i :: 10 <= i < MAX_FAVORITES ==> FavoriteKey(i) !in UnboundKeys()
    ensures forall i, j :: 10 <= i < MAX_FAVORITES && 0 <= j < MAX_FAVORITES ==> UnboundKeys()[i] != FavoriteKey(j)
  {
    var keys := UnboundKeys();
    forall i | 0 <= i <= 9 ensures FavoriteKey(i) in keys {
      assert keys[i] == FavoriteKey(i);
    }
    forall i | 10 <= i < MAX_FAVORITES ensures FavoriteKey(i) !in keys {
      var key := FavoriteKey(i);
      forall k | 0 <= k < |keys| ensures keys[k] != key {
        assert IsDigit(keys[k][0]);
      }
    }
    forall i, j | 10 <= i < MAX_FAVORITES && 0 <= j < MAX_FAVORITES ensures keys[i] != FavoriteKey(j) {
      assert |keys[i]| != 1;
    }
  }
}
