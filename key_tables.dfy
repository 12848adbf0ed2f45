/**
 * The pure part of the key-binding resolver: the two tables the X server hands
 * out (the keyboard mapping and the modifier mapping, as in the replies to
 * GetKeyboardMapping and GetModifierMapping of the X11 core protocol), the
 * lookups over them, and reference definitions of what each resolver loop
 * computes. The stateful wrapper that owns the tables is module Keybind.
 */
module KeyTables {
  import opened Wrappers
  import opened KeyStrings
  import opened Arith

  /** An 8-bit X keycode (and any other Go `byte`). */
  type Byte = b: int | 0 <= b < 256

  /** A 32-bit X keysym. */
  type Keysym = s: int | 0 <= s < 0x1_0000_0000

  /** A 16-bit X modifier mask. */
  type Mask = bv16

  const ModMaskShift: Mask := 0x0001
  const ModMaskLock: Mask := 0x0002
  const ModMaskControl: Mask := 0x0004
  const ModMask1: Mask := 0x0008
  const ModMask2: Mask := 0x0010
  const ModMask3: Mask := 0x0020
  const ModMask4: Mask := 0x0040
  const ModMask5: Mask := 0x0080
  const ModMaskAny: Mask := 0x8000

  /** Every bit a modifier mask built from modifier names can have. */
  const AllModifierBits: Mask := 0x80FF

  /**
   * The modifier order: row r of the modifier mapping holds the keycodes of
   * Modifiers[r] (Shift, Lock, Control, Mod1 to Mod5), and Any comes last.
   */
  const Modifiers: seq<Mask> :=
    [ModMaskShift, ModMaskLock, ModMaskControl, ModMask1, ModMask2, ModMask3, ModMask4, ModMask5, ModMaskAny]

  /** The lower-case binding-string names of Modifiers, in the same order. */
  const ModifierNames: seq<string> :=
    ["shift", "lock", "control", "mod1", "mod2", "mod3", "mod4", "mod5", "any"]

  /** Each modifier is a single bit of its own. */
  lemma ModifierBitsDisjoint()
    ensures forall j, k :: 0 <= j < |Modifiers| && 0 <= k < |Modifiers| ==>
      (Modifiers[j] & Modifiers[k] != 0 <==> j == k)
    ensures forall k :: 0 <= k < |Modifiers| ==> Modifiers[k] & !AllModifierBits == 0
  {
  }

  // ---------------------------------------------------------------------------
  // The two tables

  /** Keysyms, KeysymsPerKeycode of them for each keycode from the minimum on. */
  datatype KeyboardMapping = KeyboardMapping(keysymsPerKeycode: Byte, keysyms: seq<Keysym>)

  /** Keycodes, KeycodesPerModifier of them for each of the eight modifier rows; 0 is unbound. */
  datatype ModifierMapping = ModifierMapping(keycodesPerModifier: Byte, keycodes: seq<Byte>)

  /** The keycode range an X server announces at connection setup. */
  predicate KeycodeRange(min: Byte, max: Byte) {
    8 <= min <= max
  }

  /** A keyboard-mapping reply for the max - min + 1 keycodes from min on. */
  predicate KeyboardReplyFits(km: KeyboardMapping, min: Byte, max: Byte) {
    min <= max && |km.keysyms| == (max - min + 1) * km.keysymsPerKeycode
  }

  /** A modifier-mapping reply: eight rows of KeycodesPerModifier slots. */
  predicate ModifierReplyFits(mm: ModifierMapping) {
    |mm.keycodes| == 8 * mm.keycodesPerModifier
  }

  // ---------------------------------------------------------------------------
  // keysymGet

  /** The table index keysymGet reads for (keycode, column) lies inside the table. */
  predicate InTable(km: KeyboardMapping, min: Byte, keycode: int, column: int) {
    min <= keycode && 0 <= column &&
    (keycode - min) * km.keysymsPerKeycode + column < |km.keysyms|
  }

  /** keysymGet: the keysym in a column of a keycode's row of the keyboard mapping. */
  function KeysymGet(km: KeyboardMapping, min: Byte, keycode: int, column: int): (sym: Keysym)
    requires InTable(km, min, keycode, column)
    ensures sym in km.keysyms
  {
    km.keysyms[(keycode - min) * km.keysymsPerKeycode + column]
  }

  /** Every column of every keycode in range has its entry in a fitting reply. */
  lemma KeysymGetInRange(km: KeyboardMapping, min: Byte, max: Byte, keycode: int, column: int)
    requires KeyboardReplyFits(km, min, max)
    requires min <= keycode <= max && 0 <= column < km.keysymsPerKeycode
    ensures InTable(km, min, keycode, column)
  {
    var k := km.keysymsPerKeycode;
    var a := keycode - min;
    var b := max - min + 1;
    assert a + 1 <= b;
    calc {
      a * k + column;
    <
      a * k + k;
    ==
      (a + 1) * k;
    <=  { MulMonotone(k, a + 1, b); }
      b * k;
    }
  }

  /** No two (keycode, column) pairs share an entry of the keyboard mapping. */
  lemma KeysymLayoutInjective(km: KeyboardMapping, min: Byte, k1: int, c1: int, k2: int, c2: int)
    requires min <= k1 && min <= k2
    requires 0 <= c1 < km.keysymsPerKeycode && 0 <= c2 < km.keysymsPerKeycode
    requires (k1 - min) * km.keysymsPerKeycode + c1 == (k2 - min) * km.keysymsPerKeycode + c2
    ensures k1 == k2 && c1 == c2
  {
    if k1 < k2 {
      MulStep(k1 - min, k2 - min, km.keysymsPerKeycode);
      assert false;
    } else if k2 < k1 {
      MulStep(k2 - min, k1 - min, km.keysymsPerKeycode);
      assert false;
    }
  }


  // ---------------------------------------------------------------------------
  // keycodeGet

  /** Some column of the keycode's row holds sym. */
  ghost predicate Produces(km: KeyboardMapping, min: Byte, keycode: int, sym: Keysym) {
    exists c :: 0 <= c < km.keysymsPerKeycode && InTable(km, min, keycode, c) && KeysymGet(km, min, keycode, c) == sym
  }

  /** The smallest keycode from `from` to max that produces sym, or 0. */
  ghost function FirstKeycodeFrom(km: KeyboardMapping, min: Byte, max: Byte, sym: Keysym, from: int): (r: Byte)
    requires 1 <= min <= from
    decreases max + 1 - from
    ensures r != 0 ==> from <= r <= max && Produces(km, min, r, sym)
    ensures r != 0 ==> forall k :: from <= k < r ==> !Produces(km, min, k, sym)
    ensures r == 0 ==> forall k :: from <= k <= max ==> !Produces(km, min, k, sym)
  {
    if from > max then 0
    else if Produces(km, min, from, sym) then from
    else FirstKeycodeFrom(km, min, max, sym, from + 1)
  }

  /** What keycodeGet returns: the first keycode in [min, max] producing sym, or 0. */
  ghost function FirstKeycode(km: KeyboardMapping, min: Byte, max: Byte, sym: Keysym): Byte
    requires KeycodeRange(min, max)
  {
    FirstKeycodeFrom(km, min, max, sym, min)
  }

  /**
   * Looking a keycode's keysym back up finds a keycode no larger than it that
   * produces the same keysym: the round trip is sound, and the smallest such
   * keycode wins.
   */
  lemma KeycodeRoundTrip(km: KeyboardMapping, min: Byte, max: Byte, keycode: int, column: int)
    requires KeycodeRange(min, max) && KeyboardReplyFits(km, min, max)
    requires min <= keycode <= max && 0 <= column < km.keysymsPerKeycode
    ensures InTable(km, min, keycode, column)
    ensures var sym := KeysymGet(km, min, keycode, column);
      var r := FirstKeycode(km, min, max, sym);
      min <= r <= keycode && Produces(km, min, r, sym)
  {
    KeysymGetInRange(km, min, max, keycode, column);
    var sym := KeysymGet(km, min, keycode, column);
    assert Produces(km, min, keycode, sym);
  }

  // ---------------------------------------------------------------------------
  // modGet

  /** The first slot at or after `from` holding keycode. */
  function FirstSlot(keycodes: seq<Byte>, keycode: Byte, from: nat): (r: Option<nat>)
    requires from <= |keycodes|
    decreases |keycodes| - from
    ensures r.Some? ==> from <= r.value < |keycodes| && keycodes[r.value] == keycode
    ensures r.Some? ==> forall j :: from <= j < r.value ==> keycodes[j] != keycode
    ensures r.None? ==> forall j :: from <= j < |keycodes| ==> keycodes[j] != keycode
  {
    if from == |keycodes| then None
    else if keycodes[from] == keycode then Some(from)
    else FirstSlot(keycodes, keycode, from + 1)
  }

  lemma RowOfSlot(i: nat, k: nat)
    requires i < 8 * k
    ensures k > 0
    ensures 0 <= i / k < 8
  {
  }

  /**
   * What modGet returns: the modifier of the row of the first slot holding the
   * keycode, 0 when no slot holds it. With eight rows it is never Any.
   */
  function ModifierOf(mm: ModifierMapping, keycode: Byte): (m: Mask)
    requires ModifierReplyFits(mm)
    ensures m == 0 <==> keycode !in mm.keycodes
    ensures m != ModMaskAny
    ensures m != 0 ==> m in Modifiers[..8]
  {
    match FirstSlot(mm.keycodes, keycode, 0)
    case None => 0
    case Some(i) =>
      RowOfSlot(i, mm.keycodesPerModifier);
      Modifiers[i / mm.keycodesPerModifier]
  }

  /**
   * A keycode bound in slot i, and in no earlier slot, resolves to the modifier
   * of slot i's row. With keycode 0 this says an unbound keycode resolves to the
   * row of the first unbound slot.
   */
  lemma {:induction false} ModifierOfFirstSlot(mm: ModifierMapping, i: nat)
    requires ModifierReplyFits(mm)
    requires i < |mm.keycodes|
    requires forall j :: 0 <= j < i ==> mm.keycodes[j] != mm.keycodes[i]
    ensures mm.keycodesPerModifier > 0
    ensures 0 <= i / mm.keycodesPerModifier < 8
    ensures ModifierOf(mm, mm.keycodes[i]) == Modifiers[i / mm.keycodesPerModifier]
  {
    RowOfSlot(i, mm.keycodesPerModifier);
    var r := FirstSlot(mm.keycodes, mm.keycodes[i], 0);
    assert r.Some?;
    assert r.value == i;
  }

  // ---------------------------------------------------------------------------
  // lookupString

  /** The spellings lookupString tries, in order: as given, title case, lower case, upper case. */
  function CaseForms(name: string): seq<string> {
    [name, Title(name), Lower(name), Upper(name)]
  }

  /** The keysym of the first spelling of name that the keysym table knows. */
  function LookupSym(keysyms: map<string, Keysym>, name: string): (r: Option<Keysym>)
    ensures r.None? <==> forall i :: 0 <= i < 4 ==> CaseForms(name)[i] !in keysyms
    ensures r.Some? ==> exists i :: (0 <= i < 4 && CaseForms(name)[i] in keysyms &&
      r.value == keysyms[CaseForms(name)[i]] &&
      forall j :: 0 <= j < i ==> CaseForms(name)[j] !in keysyms)
  {
    var forms := CaseForms(name);
    assert forms[0] == name && forms[1] == Title(name) && forms[2] == Lower(name) && forms[3] == Upper(name);
    if name in keysyms then Some(keysyms[name])
    else if Title(name) in keysyms then Some(keysyms[Title(name)])
    else if Lower(name) in keysyms then Some(keysyms[Lower(name)])
    else if Upper(name) in keysyms then Some(keysyms[Upper(name)])
    else None
  }

  /**
   * The fallback only ever ignores ASCII case: what is found is the keysym of a
   * name equal to the query up to case.
   */
  lemma LookupSymIgnoresOnlyCase(keysyms: map<string, Keysym>, name: string)
    ensures LookupSym(keysyms, name).Some? ==>
      exists n :: n in keysyms && keysyms[n] == LookupSym(keysyms, name).value && Lower(n) == Lower(name)
  {
    LowerTitleAfter(name, true);
    LowerLower(name);
    LowerUpper(name);
  }

  /**
   * A lower-case word finds the capitalised name the table holds, unless the
   * table also holds the word itself: "return" finds "Return".
   */
  lemma LookupFindsCapitalisedName(keysyms: map<string, Keysym>, w: string)
    requires |w| >= 1
    requires forall i :: 0 <= i < |w| ==> IsLowerAscii(w[i])
    requires [UpperChar(w[0])] + w[1..] in keysyms
    requires w !in keysyms
    ensures LookupSym(keysyms, w) == Some(keysyms[[UpperChar(w[0])] + w[1..]])
  {
    TitleOfLowerWord(w);
  }

  /** The keysym table of the examples below: only "Return" is known. */
  const ReturnOnly: map<string, Keysym> := map["Return" := 0xff0d]

  /** "Return" and "return" resolve against a table holding only "Return". */
  lemma LookupReturnFound()
    ensures LookupSym(ReturnOnly, "Return") == Some(0xff0d)
    ensures LookupSym(ReturnOnly, "return") == Some(0xff0d)
  {
    assert "return" != "Return";
    assert [UpperChar("return"[0])] + "return"[1..] == "Return";
    LookupFindsCapitalisedName(ReturnOnly, "return");
  }

  /**
   * "RETURN" and "rEtUrN" do not resolve against a table holding only
   * "Return": title case leaves the other letters alone, so none of the
   * spellings tried is "Return".
   */
  lemma LookupReturnMissed()
    ensures LookupSym(ReturnOnly, "RETURN") == None
    ensures LookupSym(ReturnOnly, "rEtUrN") == None
  {
    MissedWhenNoFormIsReturn("RETURN");
    MissedWhenNoFormIsReturn("rEtUrN");
  }

  /** None of the four spellings of "RETURN" or "rEtUrN" is "Return". */
  lemma MissedWhenNoFormIsReturn(name: string)
    requires name == "RETURN" || name == "rEtUrN"
    ensures LookupSym(ReturnOnly, name) == None
  {
    assert name[1] == 'E';
    assert Title(name)[1] == 'E' by { assert !IsSeparator(name[0]); }
    assert Lower(name)[0] == 'r';
    assert Upper(name)[1] == 'E';
    assert "Return"[1] == 'e' && "Return"[0] == 'R';
    assert CaseForms(name) == [name, Title(name), Lower(name), Upper(name)];
  }

  // ---------------------------------------------------------------------------
  // ParseString

  /** The modifier a binding-string token names (compared in lower case), if any. */
  function ModifierBit(token: string): (bit: Option<Mask>)
    ensures bit.Some? <==> Lower(token) in ModifierNames
    ensures forall k :: 0 <= k < |ModifierNames| && Lower(token) == ModifierNames[k] ==> bit == Some(Modifiers[k])
  {
    var name := Lower(token);
    if name == "shift" then Some(ModMaskShift)
    else if name == "lock" then Some(ModMaskLock)
    else if name == "control" then Some(ModMaskControl)
    else if name == "mod1" then Some(ModMask1)
    else if name == "mod2" then Some(ModMask2)
    else if name == "mod3" then Some(ModMask3)
    else if name == "mod4" then Some(ModMask4)
    else if name == "mod5" then Some(ModMask5)
    else if name == "any" then Some(ModMaskAny)
    else None
  }

  /** The mask ParseString accumulates over tokens, token by token. */
  function MaskOf(tokens: seq<string>): Mask {
    if tokens == [] then 0
    else MaskOf(tokens[..|tokens| - 1]) | ModifierBit(tokens[|tokens| - 1]).GetOr(0)
  }

  /** A token's bit meets Modifiers[k] exactly when the token names modifier k. */
  lemma ModifierBitMeets(token: string, k: nat)
    requires k < |Modifiers|
    ensures (ModifierBit(token).GetOr(0) & Modifiers[k] != 0) <==> ModifierBit(token) == Some(Modifiers[k])
    ensures ModifierBit(token).GetOr(0) & !AllModifierBits == 0
  {
    ModifierBitsDisjoint();
    var b := ModifierBit(token);
    if b.Some? {
      var j :| 0 <= j < |ModifierNames| && Lower(token) == ModifierNames[j];
      assert b.value == Modifiers[j];
    }
  }

  /** Some token names the modifier with bit m. */
  ghost predicate Names(tokens: seq<string>, m: Mask) {
    exists i :: 0 <= i < |tokens| && ModifierBit(tokens[i]) == Some(m)
  }

  lemma NamesSnoc(tokens: seq<string>, m: Mask)
    requires tokens != []
    ensures Names(tokens, m) <==>
      Names(tokens[..|tokens| - 1], m) || ModifierBit(tokens[|tokens| - 1]) == Some(m)
  {
    var front := tokens[..|tokens| - 1];
    if Names(tokens, m) {
      var i :| 0 <= i < |tokens| && ModifierBit(tokens[i]) == Some(m);
      if i < |tokens| - 1 {
        assert front[i] == tokens[i];
        assert Names(front, m);
      }
    }
    if Names(front, m) {
      var i :| 0 <= i < |front| && ModifierBit(front[i]) == Some(m);
      assert tokens[i] == front[i];
      assert Names(tokens, m);
    }
    if ModifierBit(tokens[|tokens| - 1]) == Some(m) {
      assert Names(tokens, m);
    }
  }

  lemma OrMeets(a: Mask, b: Mask, m: Mask)
    ensures ((a | b) & m != 0) <==> (a & m != 0) || (b & m != 0)
  {
  }

  /** A mask holds modifier k's bit exactly when some token names modifier k. */
  lemma {:induction false} MaskOfBit(tokens: seq<string>, k: nat)
    requires k < |Modifiers|
    ensures (MaskOf(tokens) & Modifiers[k] != 0) <==> Names(tokens, Modifiers[k])
  {
    if tokens != [] {
      var front := tokens[..|tokens| - 1];
      var last := tokens[|tokens| - 1];
      MaskOfBit(front, k);
      ModifierBitMeets(last, k);
      NamesSnoc(tokens, Modifiers[k]);
      OrMeets(MaskOf(front), ModifierBit(last).GetOr(0), Modifiers[k]);
    }
  }

  /** A mask built from tokens holds no bit that is not a modifier's. */
  lemma {:induction false} MaskOfNoStrayBits(tokens: seq<string>)
    ensures MaskOf(tokens) & !AllModifierBits == 0
  {
    if tokens != [] {
      MaskOfNoStrayBits(tokens[..|tokens| - 1]);
      ModifierBitMeets(tokens[|tokens| - 1], 0);
    }
  }

  /** Two masks without stray bits that agree on every modifier are equal. */
  lemma MasksAgree(m1: Mask, m2: Mask)
    requires m1 & !AllModifierBits == 0 && m2 & !AllModifierBits == 0
    requires forall k :: 0 <= k < |Modifiers| ==> (m1 & Modifiers[k] != 0 <==> m2 & Modifiers[k] != 0)
    ensures m1 == m2
  {
    assert (m1 & ModMaskShift != 0) == (m2 & ModMaskShift != 0) by { assert Modifiers[0] == ModMaskShift; }
    assert (m1 & ModMaskLock != 0) == (m2 & ModMaskLock != 0) by { assert Modifiers[1] == ModMaskLock; }
    assert (m1 & ModMaskControl != 0) == (m2 & ModMaskControl != 0) by { assert Modifiers[2] == ModMaskControl; }
    assert (m1 & ModMask1 != 0) == (m2 & ModMask1 != 0) by { assert Modifiers[3] == ModMask1; }
    assert (m1 & ModMask2 != 0) == (m2 & ModMask2 != 0) by { assert Modifiers[4] == ModMask2; }
    assert (m1 & ModMask3 != 0) == (m2 & ModMask3 != 0) by { assert Modifiers[5] == ModMask3; }
    assert (m1 & ModMask4 != 0) == (m2 & ModMask4 != 0) by { assert Modifiers[6] == ModMask4; }
    assert (m1 & ModMask5 != 0) == (m2 & ModMask5 != 0) by { assert Modifiers[7] == ModMask5; }
    assert (m1 & ModMaskAny != 0) == (m2 & ModMaskAny != 0) by { assert Modifiers[8] == ModMaskAny; }
  }

  /**
   * The mask does not depend on the order of the tokens, nor on repeats: two
   * bindings built from the same tokens get the same mask.
   */
  lemma MaskOfIgnoresOrder(t1: seq<string>, t2: seq<string>)
    requires forall s :: s in t1 <==> s in t2
    ensures MaskOf(t1) == MaskOf(t2)
  {
    MaskOfNoStrayBits(t1);
    MaskOfNoStrayBits(t2);
    forall k | 0 <= k < |Modifiers|
      ensures MaskOf(t1) & Modifiers[k] != 0 <==> MaskOf(t2) & Modifiers[k] != 0
    {
      MaskOfBit(t1, k);
      MaskOfBit(t2, k);
      if Names(t1, Modifiers[k]) {
        var i :| 0 <= i < |t1| && ModifierBit(t1[i]) == Some(Modifiers[k]);
        assert t1[i] in t2;
        var j :| 0 <= j < |t2| && t2[j] == t1[i];
        assert ModifierBit(t2[j]) == Some(Modifiers[k]);
      }
      if Names(t2, Modifiers[k]) {
        var i :| 0 <= i < |t2| && ModifierBit(t2[i]) == Some(Modifiers[k]);
        assert t2[i] in t1;
        var j :| 0 <= j < |t1| && t1[j] == t2[i];
        assert ModifierBit(t1[j]) == Some(Modifiers[k]);
      }
    }
    MasksAgree(MaskOf(t1), MaskOf(t2));
  }

  /** What lookupString returns for a key name: the keycode of its keysym, or 0. */
  ghost function ResolveName(km: KeyboardMapping, min: Byte, max: Byte, keysyms: map<string, Keysym>, name: string): Byte
    requires KeycodeRange(min, max)
  {
    match LookupSym(keysyms, name)
    case None => 0
    case Some(sym) => FirstKeycode(km, min, max, sym)
  }

  /**
   * The keycode ParseString settles on, token by token: a non-modifier token is
   * resolved only while no keycode has been found yet.
   */
  ghost function KeyOf(km: KeyboardMapping, min: Byte, max: Byte, keysyms: map<string, Keysym>, tokens: seq<string>): Byte
    requires KeycodeRange(min, max)
  {
    if tokens == [] then 0
    else
      var kc := KeyOf(km, min, max, keysyms, tokens[..|tokens| - 1]);
      var last := tokens[|tokens| - 1];
      if kc != 0 || ModifierBit(last).Some? then kc
      else ResolveName(km, min, max, keysyms, last)
  }

  /** A token that names no modifier is the key-name token. */
  ghost predicate IsKeyToken(tokens: seq<string>, i: int) {
    0 <= i < |tokens| && ModifierBit(tokens[i]).None?
  }

  /** No key-name token before index upto resolves to a keycode. */
  ghost predicate Unresolved(km: KeyboardMapping, min: Byte, max: Byte, keysyms: map<string, Keysym>, tokens: seq<string>, upto: int)
    requires KeycodeRange(min, max)
  {
    forall j :: 0 <= j < upto && IsKeyToken(tokens, j) ==> ResolveName(km, min, max, keysyms, tokens[j]) == 0
  }

  /** Dropping the last token keeps what is said about the tokens before it. */
  lemma UnresolvedFront(km: KeyboardMapping, min: Byte, max: Byte, keysyms: map<string, Keysym>, tokens: seq<string>, upto: int)
    requires KeycodeRange(min, max) && tokens != [] && upto < |tokens|
    ensures Unresolved(km, min, max, keysyms, tokens[..|tokens| - 1], upto) <==> Unresolved(km, min, max, keysyms, tokens, upto)
  {
    var front := tokens[..|tokens| - 1];
    assert forall j :: 0 <= j < upto ==> (IsKeyToken(front, j) <==> IsKeyToken(tokens, j));
  }

  /**
   * The keycode is that of the first key-name token that resolves to a
   * non-zero keycode; it is 0 exactly when none does.
   */
  lemma {:induction false} KeyOfFirstResolved(km: KeyboardMapping, min: Byte, max: Byte, keysyms: map<string, Keysym>, tokens: seq<string>)
    requires KeycodeRange(min, max)
    ensures var kc := KeyOf(km, min, max, keysyms, tokens);
      (kc == 0 <==> Unresolved(km, min, max, keysyms, tokens, |tokens|)) &&
      (kc != 0 ==> exists i :: (IsKeyToken(tokens, i) && ResolveName(km, min, max, keysyms, tokens[i]) == kc &&
                                Unresolved(km, min, max, keysyms, tokens, i)))
  {
    if tokens != [] {
      var front := tokens[..|tokens| - 1];
      var n := |tokens| - 1;
      KeyOfFirstResolved(km, min, max, keysyms, front);
      UnresolvedFront(km, min, max, keysyms, tokens, n);
      UnresolvedNext(km, min, max, keysyms, tokens, n);
      var kc := KeyOf(km, min, max, keysyms, tokens);
      if KeyOf(km, min, max, keysyms, front) != 0 {
        var i :| IsKeyToken(front, i) && ResolveName(km, min, max, keysyms, front[i]) == kc &&
          Unresolved(km, min, max, keysyms, front, i);
        UnresolvedFront(km, min, max, keysyms, tokens, i);
        assert IsKeyToken(tokens, i) && tokens[i] == front[i];
        assert !Unresolved(km, min, max, keysyms, tokens, n);
      } else if kc != 0 {
        assert IsKeyToken(tokens, n);
      }
    }
  }

  /** Looking one token further adds that token's condition. */
  lemma UnresolvedNext(km: KeyboardMapping, min: Byte, max: Byte, keysyms: map<string, Keysym>, tokens: seq<string>, n: nat)
    requires KeycodeRange(min, max) && n < |tokens|
    ensures Unresolved(km, min, max, keysyms, tokens, n + 1) <==>
      Unresolved(km, min, max, keysyms, tokens, n) && (IsKeyToken(tokens, n) ==> ResolveName(km, min, max, keysyms, tokens[n]) == 0)
  {
  }

  /**
   * The documented example "Mod4-j": it splits into a modifier token and a key
   * name, sets exactly the Mod4 bit, and takes its keycode from "j".
   */
  lemma ParseMod4J(km: KeyboardMapping, min: Byte, max: Byte, keysyms: map<string, Keysym>)
    requires KeycodeRange(min, max)
    ensures Split("Mod4-j", '-') == ["Mod4", "j"]
    ensures MaskOf(["Mod4", "j"]) == ModMask4
    ensures KeyOf(km, min, max, keysyms, ["Mod4", "j"]) == ResolveName(km, min, max, keysyms, "j")
  {
    assert Join(["Mod4", "j"], '-') == "Mod4-j" by { assert ["Mod4", "j"][1..] == ["j"]; }
    SplitJoin(["Mod4", "j"], '-');
    Mod4JTokens();
    assert ["Mod4", "j"][..1] == ["Mod4"];
    assert MaskOf(["Mod4"]) == ModMask4 by { assert ["Mod4"][..0] == []; }
    assert KeyOf(km, min, max, keysyms, ["Mod4"]) == 0 by { assert ["Mod4"][..0] == []; }
  }

  /** "Mod4" names the Mod4 modifier, in any case; "j" names none. */
  lemma Mod4JTokens()
    ensures ModifierBit("Mod4") == Some(ModMask4)
    ensures ModifierBit("j") == None
  {
    assert Lower("Mod4") == "mod4";
    assert Lower("j") == "j";
  }

  // ---------------------------------------------------------------------------
  // XModMap

  /** One keycode of a modifier row as the diagnostic dump names it. */
  datatype ModMapEntry = ModMapEntry(keycode: Byte, keysym: Keysym, name: string)

  /**
   * The keysym a bound keycode is named by: its column-0 keysym, or its
   * column-1 keysym when column 0 holds 0. None when keysymGet would index
   * outside the table (a Go index panic).
   */
  function NameKeysym(km: KeyboardMapping, min: Byte, keycode: Byte): (r: Option<Keysym>)
    ensures r.Some? ==> InTable(km, min, keycode, 0)
    ensures r.Some? && KeysymGet(km, min, keycode, 0) != 0 ==> r.value == KeysymGet(km, min, keycode, 0)
    ensures r.Some? && KeysymGet(km, min, keycode, 0) == 0 ==>
      InTable(km, min, keycode, 1) && r.value == KeysymGet(km, min, keycode, 1)
  {
    if !InTable(km, min, keycode, 0) then None
    else if KeysymGet(km, min, keycode, 0) != 0 then Some(KeysymGet(km, min, keycode, 0))
    else if InTable(km, min, keycode, 1) then Some(KeysymGet(km, min, keycode, 1))
    else None
  }

  /** strKeysyms[sym], with Go's empty string for a keysym the table lacks. */
  function KeysymName(strKeysyms: map<Keysym, string>, sym: Keysym): (name: string)
    ensures sym in strKeysyms ==> name == strKeysyms[sym]
    ensures sym !in strKeysyms ==> name == ""
  {
    if sym in strKeysyms then strKeysyms[sym] else ""
  }

  /** The slots of modifier row k. */
  function RowSlots(mm: ModifierMapping, k: nat): (slots: seq<Byte>)
    requires ModifierReplyFits(mm) && k < 8
    ensures |slots| == mm.keycodesPerModifier
  {
    MulMonotone(mm.keycodesPerModifier, k + 1, 8);
    mm.keycodes[k * mm.keycodesPerModifier .. k * mm.keycodesPerModifier + mm.keycodesPerModifier]
  }

  /** Every bound keycode among the slots can be named without a panic. */
  predicate RowNamed(km: KeyboardMapping, min: Byte, slots: seq<Byte>) {
    forall j :: 0 <= j < |slots| && slots[j] != 0 ==> NameKeysym(km, min, slots[j]).Some?
  }

  /** The entries the dump lists for a row: its bound keycodes, in slot order. */
  function RowEntries(km: KeyboardMapping, min: Byte, strKeysyms: map<Keysym, string>, slots: seq<Byte>): seq<ModMapEntry>
    requires RowNamed(km, min, slots)
  {
    if slots == [] then []
    else
      var front := slots[..|slots| - 1];
      var kc := slots[|slots| - 1];
      assert RowNamed(km, min, front) by {
        forall j | 0 <= j < |front| && front[j] != 0 ensures NameKeysym(km, min, front[j]).Some? {
          assert front[j] == slots[j];
        }
      }
      if kc == 0 then RowEntries(km, min, strKeysyms, front)
      else
        var sym := NameKeysym(km, min, kc).value;
        RowEntries(km, min, strKeysyms, front) + [ModMapEntry(kc, sym, KeysymName(strKeysyms, sym))]
  }

  /** What XModMap computes: the eight modifier rows, Any left out; None on an index panic. */
  function ModMapRows(km: KeyboardMapping, min: Byte, strKeysyms: map<Keysym, string>, mm: ModifierMapping): (r: Option<seq<seq<ModMapEntry>>>)
    requires ModifierReplyFits(mm)
    ensures r.Some? <==> forall k :: 0 <= k < 8 ==> RowNamed(km, min, RowSlots(mm, k))
    ensures r.Some? ==> |r.value| == 8
  {
    if forall k :: 0 <= k < 8 ==> RowNamed(km, min, RowSlots(mm, k)) then
      Some(seq(8, k requires 0 <= k < 8 => RowEntries(km, min, strKeysyms, RowSlots(mm, k))))
    else None
  }

  /** The non-zero keycodes of a row, in slot order. */
  function BoundKeycodes(slots: seq<Byte>): seq<Byte> {
    if slots == [] then []
    else if slots[|slots| - 1] == 0 then BoundKeycodes(slots[..|slots| - 1])
    else BoundKeycodes(slots[..|slots| - 1]) + [slots[|slots| - 1]]
  }

  /**
   * A row lists exactly its bound keycodes, in slot order, each named by the
   * keysym NameKeysym picks and that keysym's name.
   */
  lemma {:induction false} RowEntriesListBoundKeycodes(km: KeyboardMapping, min: Byte, strKeysyms: map<Keysym, string>, slots: seq<Byte>)
    requires RowNamed(km, min, slots)
    ensures var es := RowEntries(km, min, strKeysyms, slots);
      |es| == |BoundKeycodes(slots)| &&
      (forall i :: 0 <= i < |es| ==> es[i].keycode == BoundKeycodes(slots)[i]) &&
      (forall i :: 0 <= i < |es| ==> NameKeysym(km, min, es[i].keycode) == Some(es[i].keysym) &&
                                     es[i].name == KeysymName(strKeysyms, es[i].keysym))
  {
    if slots != [] {
      var front := slots[..|slots| - 1];
      assert RowNamed(km, min, front) by {
        forall j | 0 <= j < |front| && front[j] != 0 ensures NameKeysym(km, min, front[j]).Some? {
          assert front[j] == slots[j];
        }
      }
      RowEntriesListBoundKeycodes(km, min, strKeysyms, front);
    }
  }

  /**
   * When every bound keycode lies in [min, max] and the keyboard mapping has at
   * least two columns, the dump never indexes outside the table.
   */
  lemma ModMapRowsDefined(km: KeyboardMapping, min: Byte, max: Byte, strKeysyms: map<Keysym, string>, mm: ModifierMapping)
    requires KeyboardReplyFits(km, min, max) && ModifierReplyFits(mm)
    requires km.keysymsPerKeycode >= 2
    requires forall i :: 0 <= i < |mm.keycodes| && mm.keycodes[i] != 0 ==> min <= mm.keycodes[i] <= max
    ensures ModMapRows(km, min, strKeysyms, mm).Some?
  {
    forall k | 0 <= k < 8 ensures RowNamed(km, min, RowSlots(mm, k)) {
      RowNamedInRange(km, min, max, mm, k);
    }
  }

  /** A keycode in range is named without a panic when there are two columns. */
  lemma NameKeysymDefined(km: KeyboardMapping, min: Byte, max: Byte, keycode: Byte)
    requires KeyboardReplyFits(km, min, max)
    requires km.keysymsPerKeycode >= 2
    requires min <= keycode <= max
    ensures NameKeysym(km, min, keycode).Some?
  {
    KeysymGetInRange(km, min, max, keycode, 0);
    KeysymGetInRange(km, min, max, keycode, 1);
  }

  lemma RowNamedInRange(km: KeyboardMapping, min: Byte, max: Byte, mm: ModifierMapping, k: nat)
    requires KeyboardReplyFits(km, min, max) && ModifierReplyFits(mm)
    requires km.keysymsPerKeycode >= 2
    requires forall i :: 0 <= i < |mm.keycodes| && mm.keycodes[i] != 0 ==> min <= mm.keycodes[i] <= max
    requires k < 8
    ensures RowNamed(km, min, RowSlots(mm, k))
  {
    var slots := RowSlots(mm, k);
    forall j | 0 <= j < |slots| && slots[j] != 0 ensures NameKeysym(km, min, slots[j]).Some? {
      assert slots[j] in mm.keycodes;
      NameKeysymDefined(km, min, max, slots[j]);
    }
  }
}
