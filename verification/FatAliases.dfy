/**
 The alias search of `create` (src/fs/fat_fs.cpp) always finds one: there are more
 serial numbers than names and entries that could be in the way.
 */
module FatAliases {
  import opened Arithmetic
  import opened FatLabels
  import opened FatScanning
  import opened FatLongNames
  import opened FatCreation
  import opened Seals

  const MAX_FILES: nat := 128

  // ---------------------------------------------------------------------
  // Different serial numbers make different aliases

  /** `n` digits are enough for the number. */
  predicate Below(number: nat, n: nat) { if n == 0 then number == 0 else Below(number / 10, n - 1) }

  lemma {:induction false} BelowLess(a: nat, b: nat, n: nat)
    requires a <= b && Below(b, n)
    ensures Below(a, n)
  {
    if n > 0 {
      BelowLess(a / 10, b / 10, n - 1);
    }
  }

  lemma SerialBelow(k: nat)
    requires k <= MAX_SERIAL
    ensures Below(k, ALIAS_DIGITS)
  {
    assert Below(MAX_SERIAL, 7);
    BelowLess(k, MAX_SERIAL, ALIAS_DIGITS);
  }

  lemma {:induction false} DigitsApart(a: nat, b: nat, n: nat)
    requires Below(a, n) && Below(b, n) && Digits(a, n) == Digits(b, n)
    ensures a == b
  {
    if n > 0 {
      var s, t := Digits(a, n), Digits(b, n);
      assert s[n - 1] == 48 + a % 10 && t[n - 1] == 48 + b % 10;
      assert s[..n - 1] == Digits(a / 10, n - 1) && t[..n - 1] == Digits(b / 10, n - 1);
      DigitsApart(a / 10, b / 10, n - 1);
    }
  }

  lemma AliasApart(j: nat, k: nat)
    requires j <= MAX_SERIAL && k <= MAX_SERIAL
    requires AliasBytes(j) == AliasBytes(k) || Fold(Alias(j)) == Fold(Alias(k))
    ensures j == k
  {
    SerialBelow(j);
    SerialBelow(k);
    AliasDigits(j);
    AliasDigits(k);
    DigitsApart(j, k, ALIAS_DIGITS);
  }

  lemma AliasDigits(k: nat)
    ensures AliasBytes(k)[1..8] == Digits(k, ALIAS_DIGITS) == Fold(Alias(k))[1..8]
  {
  }

  // ---------------------------------------------------------------------
  // Counting what is in the way

  lemma {:induction false} Injected<T(!new)>(s: set<nat>, f: nat -> T, r: set<T>)
    requires forall k :: k in s ==> f(k) in r
    requires forall j, k :: j in s && k in s && f(j) == f(k) ==> j == k
    ensures |s| <= |r|
    decreases |s|
  {
    if k :| k in s {
      assert forall j :: j in s - {k} ==> f(j) != f(k);
      Injected(s - {k}, f, r - {f(k)});
    }
  }

  lemma Counted(n: nat) returns (s: set<nat>)
    ensures |s| == n && forall k :: k in s <==> 0 <= k < n
  {
    s := Upto(n);
  }

  lemma {:induction false} TakenSize(files: seq<File>)
    ensures |Taken(files)| <= 2 * |files|
  {
    if files != [] {
      var front, last := files[..|files| - 1], Takes(files[|files| - 1].names);
      TakenSize(front);
      TakesSize(files[|files| - 1].names);
      UnionSize(Taken(front), last);
    }
  }

  lemma TakesSize(l: Label)
    ensures |Takes(l)| <= 2
  {
    UnionSize({Fold(l.name)}, if l.alias == [] then {} else {Fold(l.alias)});
  }

  lemma UnionSize<T>(a: set<T>, b: set<T>)
    ensures |a + b| <= |a| + |b|
  {
    assert |a + b| == |a| + |b| - |a * b|;
  }

  /** The serial numbers of which an alias is a name already. */
  ghost function Named(names: set<Text>, serials: set<nat>): set<nat> {
    set k | k in serials && Fold(Alias(k)) in names
  }

  lemma NamedSize(names: set<Text>, serials: set<nat>)
    requires forall k :: k in serials ==> k <= MAX_SERIAL
    ensures |Named(names, serials)| <= |names|
  {
    var s := Named(names, serials);
    forall j, k | j in s && k in s && Fold(Alias(j)) == Fold(Alias(k)) ensures j == k {
      AliasApart(j, k);
    }
    Injected(s, k => Fold(Alias(k)), names);
  }

  /** A slot whose entry has these bytes. */
  ghost function SlotOf(entries: seq<Entry>, raw: Text): (i: nat)
    requires RawTaken(entries, raw)
    ensures i < LIMIT && i < |entries| && RawAt(entries[i], raw)
  {
    var i :| 0 <= i < End(entries, 0) && i < LIMIT && RawAt(entries[i], raw);
    i
  }

  lemma RawSize(entries: seq<Entry>, serials: set<nat>)
    requires forall k :: k in serials ==> k <= MAX_SERIAL && RawTaken(entries, AliasBytes(k))
    ensures |serials| <= LIMIT
  {
    var f := (k: nat) => if RawTaken(entries, AliasBytes(k)) then SlotOf(entries, AliasBytes(k)) else 0;
    forall j, k | j in serials && k in serials && f(j) == f(k) ensures j == k {
      AliasApart(j, k);
    }
    var slots := Counted(LIMIT);
    Injected(serials, f, slots);
  }

  /** The alias search never fails in a directory of at most as many files as there are nodes. */
  lemma AliasAlways(entries: seq<Entry>, files: seq<File>, name: Text)
    requires |files| <= MAX_FILES
    ensures !NoAlias(entries, files, name)
  {
    if NoAlias(entries, files, name) {
      assert Opened(ShowSeal, 0);
      var names := Taken(files) + {Fold(name)};
      var all := Counted(MAX_SERIAL + 1);
      all := all - {0};
      var named := Named(names, all);
      TakenSize(files);
      UnionSize(Taken(files), {Fold(name)});
      NamedSize(names, all);
      forall k | k in all - named ensures k <= MAX_SERIAL && RawTaken(entries, AliasBytes(k)) {
        assert !AliasFree(entries, files, name, k);
      }
      RawSize(entries, all - named);
      assert false;
    }
  }
}
