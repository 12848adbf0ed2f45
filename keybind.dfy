/**
 * The key-binding resolver of package keybind: the current keyboard and
 * modifier mappings of one X connection, their refresh, and the lookups
 * that turn binding strings such as "Mod4-j" into (modifier mask, keycode)
 * pairs. Server replies are parameters; a Go panic is a Failure result.
 */
module Keybind {
  import opened Wrappers
  import opened KeyStrings
  import opened KeyTables

  /** Why a refresh or a lookup panics. */
  datatype KeybindPanic =
    | KeyboardMappingUnavailable
    | ModifierMappingUnavailable
    | IndexOutOfRange

  /** An error reply from the X server. */
  datatype XError = XError(code: int)

  /** The pair of tables one refresh installs. */
  datatype Snapshot = Snapshot(keyMap: KeyboardMapping, modMap: ModifierMapping)

  /**
   * mapsGet: both tables are fetched first, then checked; a failed fetch
   * panics (the keyboard mapping is checked first), and only two successful
   * fetches give a snapshot.
   */
  function MapsGet(keyReply: Result<KeyboardMapping, XError>, modReply: Result<ModifierMapping, XError>): (r: Result<Snapshot, KeybindPanic>)
    ensures r.Success? <==> keyReply.Success? && modReply.Success?
    ensures r.Success? ==> r.value == Snapshot(keyReply.value, modReply.value)
    ensures keyReply.Failure? ==> r == Failure(KeyboardMappingUnavailable)
    ensures keyReply.Success? && modReply.Failure? ==> r == Failure(ModifierMappingUnavailable)
  {
    if keyReply.Failure? then Failure(KeyboardMappingUnavailable)
    else if modReply.Failure? then Failure(ModifierMappingUnavailable)
    else Success(Snapshot(keyReply.value, modReply.value))
  }

  /** What a successful reply carries, as the X11 protocol lays it out. */
  predicate RepliesFit(keyReply: Result<KeyboardMapping, XError>, modReply: Result<ModifierMapping, XError>, min: Byte, max: Byte) {
    (keyReply.Success? ==> KeyboardReplyFits(keyReply.value, min, max)) &&
    (modReply.Success? ==> ModifierReplyFits(modReply.value))
  }

  /** A keycode that produces sym, after none below it did, is the first one. */
  lemma FirstKeycodeIs(km: KeyboardMapping, min: Byte, max: Byte, sym: Keysym, k: int, c: int)
    requires KeycodeRange(min, max) && min <= k <= max
    requires 0 <= c < km.keysymsPerKeycode && InTable(km, min, k, c) && KeysymGet(km, min, k, c) == sym
    requires forall k' :: min <= k' < k ==> !Produces(km, min, k', sym)
    ensures FirstKeycode(km, min, max, sym) == k
  {
    assert Produces(km, min, k, sym);
  }

  /** When no keycode in range produces sym, there is no first one. */
  lemma FirstKeycodeNone(km: KeyboardMapping, min: Byte, max: Byte, sym: Keysym)
    requires KeycodeRange(min, max)
    requires forall k' :: min <= k' <= max ==> !Produces(km, min, k', sym)
    ensures FirstKeycode(km, min, max, sym) == 0
  {
  }

  /** Every column of keycode k was scanned without finding sym. */
  lemma NotProduced(km: KeyboardMapping, min: Byte, sym: Keysym, k: int)
    requires forall c' :: 0 <= c' < km.keysymsPerKeycode && InTable(km, min, k, c') ==> KeysymGet(km, min, k, c') != sym
    ensures !Produces(km, min, k, sym)
  {
  }

  /** One more token ORs its bit, or 0, into the mask. */
  lemma MaskOfAppend(tokens: seq<string>, t: string)
    ensures MaskOf(tokens + [t]) == MaskOf(tokens) | ModifierBit(t).GetOr(0)
  {
    assert (tokens + [t])[..|tokens|] == tokens;
    assert (tokens + [t])[|tokens|] == t;
  }

  /** One more token ORs its bit, if any, into the mask. */
  lemma MaskOfSnoc(tokens: seq<string>, t: string)
    ensures MaskOf(tokens + [t]) == if ModifierBit(t).Some? then MaskOf(tokens) | ModifierBit(t).value else MaskOf(tokens)
  {
    MaskOfAppend(tokens, t);
    var m := MaskOf(tokens);
    if ModifierBit(t).None? {
      assert m | 0 == m;
    }
  }

  /** One more token is resolved only if it is a key name and no keycode was found yet. */
  lemma KeyOfSnoc(km: KeyboardMapping, min: Byte, max: Byte, keysyms: map<string, Keysym>, tokens: seq<string>, t: string)
    requires KeycodeRange(min, max)
    ensures var kc := KeyOf(km, min, max, keysyms, tokens);
      KeyOf(km, min, max, keysyms, tokens + [t]) ==
        if kc != 0 || ModifierBit(t).Some? then kc else ResolveName(km, min, max, keysyms, t)
  {
    assert (tokens + [t])[..|tokens|] == tokens;
  }

  /** One token of ParseString's loop keeps the mask and keycode in step with MaskOf and KeyOf. */
  lemma ParseStep(km: KeyboardMapping, min: Byte, max: Byte, keysyms: map<string, Keysym>, parts: seq<string>, i: nat,
                  mods: Mask, kc: Byte, mods': Mask, kc': Byte)
    requires KeycodeRange(min, max) && i < |parts|
    requires mods == MaskOf(parts[..i]) && kc == KeyOf(km, min, max, keysyms, parts[..i])
    requires mods' == if ModifierBit(parts[i]).Some? then mods | ModifierBit(parts[i]).value else mods
    requires kc' == if ModifierBit(parts[i]).None? && kc == 0 then ResolveName(km, min, max, keysyms, parts[i]) else kc
    ensures mods' == MaskOf(parts[..i + 1]) && kc' == KeyOf(km, min, max, keysyms, parts[..i + 1])
  {
    assert parts[..i + 1] == parts[..i] + [parts[i]];
    assert mods' == MaskOf(parts[..i + 1]) by {
      MaskOfSnoc(parts[..i], parts[i]);
    }
    assert kc' == KeyOf(km, min, max, keysyms, parts[..i + 1]) by {
      KeyOfSnoc(km, min, max, keysyms, parts[..i], parts[i]);
    }
  }

  /**
   * The keyboard state of one connection: the keycode range from connection
   * setup, and the key map and modifier map last installed (none before
   * Initialize).
   */
  class KeyboardState {
    const minKeycode: Byte
    const maxKeycode: Byte
    var keyMap: Option<KeyboardMapping>
    var modMap: Option<ModifierMapping>
    /** Whether the MappingNotify handler is connected. */
    var listening: bool

    /** Both maps are installed together, and each fits the keycode range. */
    ghost predicate Valid()
      reads this
    {
      KeycodeRange(minKeycode, maxKeycode) &&
      keyMap.Some? == modMap.Some? &&
      (keyMap.Some? ==> KeyboardReplyFits(keyMap.value, minKeycode, maxKeycode) && ModifierReplyFits(modMap.value))
    }

    /** The resolver may be used: a snapshot is installed. */
    ghost predicate Ready()
      reads this
    {
      Valid() && keyMap.Some?
    }

    /** A connection whose setup announced keycodes min to max. */
    constructor (min: Byte, max: Byte)
      requires KeycodeRange(min, max)
      ensures Valid() && !Ready() && !listening
      ensures minKeycode == min && maxKeycode == max
    {
      minKeycode, maxKeycode := min, max;
      keyMap, modMap := None, None;
      listening := false;
    }

    /** Installs a snapshot: KeyMapSet then ModMapSet. */
    method Install(s: Snapshot)
      requires KeycodeRange(minKeycode, maxKeycode)
      requires KeyboardReplyFits(s.keyMap, minKeycode, maxKeycode) && ModifierReplyFits(s.modMap)
      modifies this`keyMap, this`modMap
      ensures Ready()
      ensures keyMap == Some(s.keyMap) && modMap == Some(s.modMap)
    {
      keyMap := Some(s.keyMap);
      modMap := Some(s.modMap);
    }

    /**
     * Initialize: connects the MappingNotify handler, then fetches and installs
     * both maps. A failed fetch panics before anything is installed.
     */
    method Initialize(keyReply: Result<KeyboardMapping, XError>, modReply: Result<ModifierMapping, XError>)
      returns (r: Result<Snapshot, KeybindPanic>)
      requires Valid()
      requires RepliesFit(keyReply, modReply, minKeycode, maxKeycode)
      modifies this
      ensures Valid() && listening
      ensures r == MapsGet(keyReply, modReply)
      ensures r.Success? ==> keyMap == Some(r.value.keyMap) && modMap == Some(r.value.modMap)
      ensures r.Failure? ==> keyMap == old(keyMap) && modMap == old(modMap)
    {
      listening := true;
      r := MapsGet(keyReply, modReply);
      if r.Success? {
        Install(r.value);
      }
    }

    /**
     * updateMaps, run on every MappingNotify: fetches both maps again and
     * replaces the installed pair wholesale. The result depends only on the
     * replies, so two refreshes against unchanged server tables install equal
     * snapshots.
     */
    method UpdateMaps(keyReply: Result<KeyboardMapping, XError>, modReply: Result<ModifierMapping, XError>)
      returns (r: Result<Snapshot, KeybindPanic>)
      requires Valid()
      requires RepliesFit(keyReply, modReply, minKeycode, maxKeycode)
      modifies this`keyMap, this`modMap
      ensures Valid()
      ensures r == MapsGet(keyReply, modReply)
      ensures r.Success? ==> keyMap == Some(r.value.keyMap) && modMap == Some(r.value.modMap)
      ensures r.Failure? ==> keyMap == old(keyMap) && modMap == old(modMap)
    {
      r := MapsGet(keyReply, modReply);
      if r.Success? {
        Install(r.value);
      }
    }

    /**
     * keycodeGet: scans keycodes upwards from the minimum and, within a
     * keycode, columns upwards; the first keycode holding sym wins, 0 if none.
     */
    method KeycodeGet(sym: Keysym) returns (kc: Byte)
      requires Ready()
      ensures kc == FirstKeycode(keyMap.value, minKeycode, maxKeycode, sym)
    {
      var km := keyMap.value;
      var k: int := minKeycode;
      while k <= maxKeycode
        invariant minKeycode <= k <= maxKeycode + 1
        invariant forall k' :: minKeycode <= k' < k ==> !Produces(km, minKeycode, k', sym)
      {
        var c := 0;
        while c < km.keysymsPerKeycode
          invariant 0 <= c <= km.keysymsPerKeycode
          invariant forall c' :: 0 <= c' < c && InTable(km, minKeycode, k, c') ==> KeysymGet(km, minKeycode, k, c') != sym
        {
          KeysymGetInRange(km, minKeycode, maxKeycode, k, c);
          if sym == KeysymGet(km, minKeycode, k, c) {
            FirstKeycodeIs(km, minKeycode, maxKeycode, sym, k, c);
            return k;
          }
          c := c + 1;
        }
        NotProduced(km, minKeycode, sym, k);
        k := k + 1;
      }
      FirstKeycodeNone(km, minKeycode, maxKeycode, sym);
      return 0;
    }

    /**
     * modGet: the modifier of the row of the first modifier-map slot holding
     * the keycode, 0 if none does. The Go loop counts with a byte, which
     * wraps after slot 255: the loop only ends when the table has at most
     * 255 slots or the keycode sits in one of the first 256.
     */
    method ModGet(keycode: Byte) returns (mask: Mask)
      requires Ready()
      requires |modMap.value.keycodes| <= 255 || keycode in modMap.value.keycodes[..256]
      ensures mask == ModifierOf(modMap.value, keycode)
    {
      var mm := modMap.value;
      var i: Byte := 0;
      while i < |mm.keycodes|
        invariant i <= |mm.keycodes|
        invariant forall j :: 0 <= j < i ==> mm.keycodes[j] != keycode
        decreases |mm.keycodes| - i
      {
        if mm.keycodes[i] == keycode {
          ModifierOfFirstSlot(mm, i);
          return Modifiers[i / mm.keycodesPerModifier];
        }
        if |mm.keycodes| > 255 {
          var j :| 0 <= j < 256 && mm.keycodes[j] == keycode;
          assert i < j;
        }
        i := i + 1;
      }
      return 0;
    }

    /**
     * lookupString: finds the key name's keysym through the case fallback,
     * then that keysym's keycode; 0 when the name is unknown.
     */
    method LookupString(keysyms: map<string, Keysym>, str: string) returns (kc: Byte)
      requires Ready()
      ensures kc == ResolveName(keyMap.value, minKeycode, maxKeycode, keysyms, str)
    {
      var sym := LookupSym(keysyms, str);
      if sym.None? {
        return 0;
      }
      kc := KeycodeGet(sym.value);
    }

    /**
     * ParseString: ORs in the bit of every token that names a modifier, and
     * takes the keycode of the first key-name token that resolves. A result
     * keycode of 0 is logged as a warning.
     */
    method ParseString(keysyms: map<string, Keysym>, str: string) returns (mods: Mask, kc: Byte, warned: bool)
      requires Ready()
      ensures mods == MaskOf(Split(str, '-'))
      ensures kc == KeyOf(keyMap.value, minKeycode, maxKeycode, keysyms, Split(str, '-'))
      ensures warned <==> kc == 0
    {
      var km := keyMap.value;
      var parts := Split(str, '-');
      mods, kc := 0, 0;
      for i := 0 to |parts|
        invariant mods == MaskOf(parts[..i])
        invariant kc == KeyOf(km, minKeycode, maxKeycode, keysyms, parts[..i])
      {
        var part := parts[i];
        ghost var mods0, kc0 := mods, kc;
        var bit := ModifierBit(part);
        if bit.Some? {
          mods := mods | bit.value;
        } else if kc == 0 {
          kc := LookupString(keysyms, part);
        }
        ParseStep(km, minKeycode, maxKeycode, keysyms, parts, i, mods0, kc0, mods, kc);
      }
      assert parts[..|parts|] == parts;
      warned := kc == 0;
    }

    /**
     * XModMap: for each of the eight modifier rows (Any is skipped), the bound
     * keycodes of the row in slot order, each named by its column-0 keysym, or
     * its column-1 keysym when column 0 holds 0. Fails where keysymGet would
     * index outside the keyboard mapping.
     */
    method XModMap(strKeysyms: map<Keysym, string>) returns (r: Result<seq<seq<ModMapEntry>>, KeybindPanic>)
      requires Ready()
      ensures r.Success? <==> ModMapRows(keyMap.value, minKeycode, strKeysyms, modMap.value).Some?
      ensures r.Success? ==> r.value == ModMapRows(keyMap.value, minKeycode, strKeysyms, modMap.value).value
    {
      var km, mm := keyMap.value, modMap.value;
      var rows: seq<seq<ModMapEntry>> := [];
      for mmi := 0 to 8
        invariant forall k :: 0 <= k < mmi ==> RowNamed(km, minKeycode, RowSlots(mm, k))
        invariant |rows| == mmi
        invariant forall k :: 0 <= k < mmi ==> rows[k] == RowEntries(km, minKeycode, strKeysyms, RowSlots(mm, k))
      {
        var slots := RowSlots(mm, mmi);
        var entries: seq<ModMapEntry> := [];
        for j := 0 to |slots|
          invariant RowNamed(km, minKeycode, slots[..j])
          invariant entries == RowEntries(km, minKeycode, strKeysyms, slots[..j])
        {
          var kc := slots[j];
          assert slots[..j + 1][..j] == slots[..j];
          if kc != 0 {
            if !InTable(km, minKeycode, kc, 0) {
              return Failure(IndexOutOfRange);
            }
            var ksym := KeysymGet(km, minKeycode, kc, 0);
            if ksym == 0 {
              if !InTable(km, minKeycode, kc, 1) {
                return Failure(IndexOutOfRange);
              }
              ksym := KeysymGet(km, minKeycode, kc, 1);
            }
            entries := entries + [ModMapEntry(kc, ksym, KeysymName(strKeysyms, ksym))];
          }
        }
        assert slots[..|slots|] == slots;
        rows := rows + [entries];
      }
      return Success(rows);
    }
  }
}
