/**
 * The selection page's decisions (src/main.rs:187-211): the combobox labels
 * and the index table built from the catalog, the lookup of the chosen index
 * when "Next" is clicked, and the choice of the game directory.
 *
 * The widgets themselves are inputs: the combobox and the radio buttons
 * report an `i32` index, the text entry its contents as bytes.
 */
module Selection {
  import opened Base
  import opened Fs
  import opened Updater

  /** What `Combobox::selected` and `RadioButtons::selected` return. */
  type I32 = x: int | -0x8000_0000 <= x < 0x8000_0000

  /** `x as usize` on a 64-bit target: a negative value wraps around. */
  function AsUsize(x: I32): (u: nat)
    ensures u < 0x1_0000_0000_0000_0000
    ensures x >= 0 ==> u == x
    ensures x < 0 ==> u >= 0x1_0000_0000_0000_0000 - 0x8000_0000
  {
    if x >= 0 then x else x + 0x1_0000_0000_0000_0000
  }

  // ---------------------------------------------------------------------
  // The combobox and `version_map` (src/main.rs:187-194).

  /** `format!("{} ({})", version.ver, version.branch)`. */
  function Label(v: EverestVersion): string
  {
    Decimal(v.ver) + " (" + v.branch + ")"
  }

  /** The table maps exactly the indices of the list, each to its version. */
  predicate Indexes(table: map<nat, EverestVersion>, versions: seq<EverestVersion>)
  {
    && (forall i :: i in table ==> i < |versions|)
    && (forall i :: 0 <= i < |versions| ==> i in table && table[i] == versions[i])
  }

  /** The loop over `versions.iter().enumerate()`: one label per version, in
      order, and `version_map.insert(i, version)`. */
  method BuildVersionMap(versions: seq<EverestVersion>) returns (labels: seq<string>, table: map<nat, EverestVersion>)
    ensures |labels| == |versions|
    ensures forall i :: 0 <= i < |versions| ==> labels[i] == Label(versions[i])
    ensures Indexes(table, versions)
  {
    labels := [];
    table := map[];
    for i := 0 to |versions|
      invariant |labels| == i
      invariant forall k :: 0 <= k < i ==> labels[k] == Label(versions[k])
      invariant forall k :: k in table ==> k < i
      invariant forall k :: 0 <= k < i ==> k in table && table[k] == versions[k]
    {
      labels := labels + [Label(versions[i])];
      table := table[i := versions[i]];
    }
  }

  /** The length of the leading run of digits. */
  function DigitRun(s: string): (n: nat)
    ensures n <= |s| && AllDigits(s[..n])
    decreases |s|
  {
    if s == [] || !IsDigit(s[0]) then 0
    else
      var n := 1 + DigitRun(s[1..]);
      assert forall k :: 1 <= k < n ==> s[..n][k] == s[1..][..n - 1][k - 1];
      n
  }

  /** The number a label starts with. */
  function LeadingNumber(s: string): nat
  {
    ParseDecimal(s[..DigitRun(s)])
  }

  /** A run of digits followed by a non-digit is read up to the non-digit. */
  lemma {:induction false} DigitRunOfDigits(a: string, b: string)
    requires AllDigits(a)
    requires b == [] || !IsDigit(b[0])
    ensures DigitRun(a + b) == |a|
    decreases |a|
  {
    if a != [] {
      assert (a + b)[1..] == a[1..] + b;
      DigitRunOfDigits(a[1..], b);
    } else {
      assert a + b == b;
    }
  }

  /** Each label starts with the version number and nothing else: reading
      the leading number of the label gives the version back. */
  lemma LabelShowsVersion(v: EverestVersion)
    ensures LeadingNumber(Label(v)) == v.ver
  {
    var d := Decimal(v.ver);
    var rest := " (" + v.branch + ")";
    assert Label(v) == d + rest;
    DigitRunOfDigits(d, rest);
    assert (d + rest)[..|d|] == d;
    ParseDecimalOfDecimal(v.ver);
  }

  // ---------------------------------------------------------------------
  // The lookup when "Next" is clicked (src/main.rs:198-201).

  /** `version_map[&(selected as usize)]`: none when the key is missing, where
      the index operator panics. */
  function Selected(table: map<nat, EverestVersion>, selected: I32): Option<EverestVersion>
  {
    var key := AsUsize(selected);
    if key in table then Some(table[key]) else None
  }

  /** The chosen version is the listed one at the chosen index; a negative
      index or one past the list panics. A list's length never exceeds
      `isize::MAX`, so a negative index never wraps onto a key. */
  lemma SelectedVersionIsListed(table: map<nat, EverestVersion>, versions: seq<EverestVersion>, selected: I32)
    requires Indexes(table, versions)
    requires |versions| < 0x8000_0000_0000_0000
    ensures Selected(table, selected) == if 0 <= selected < |versions| then Some(versions[selected]) else None
  {
    var key := AsUsize(selected);
    if selected < 0 {
      assert key >= |versions|;
      assert key !in table;
    }
  }

  // ---------------------------------------------------------------------
  // The game directory (src/main.rs:203-211).

  /** The Steam location when it was found and its radio button is chosen;
      otherwise the directory holding the executable named in the text entry,
      none (`parent().unwrap()` panics) for an entry with no component. */
  function GamePath(steam: Option<Path>, radio: I32, entry: seq<byte>): (r: Option<Path>)
    ensures steam.Some? && radio == 0 ==> r == steam
    ensures !(steam.Some? && radio == 0) ==> (r.None? <==> Components(entry) == [])
    ensures !(steam.Some? && radio == 0) && r.Some? ==>
      var exe := ParsePath(entry);
      Join(r.value, Path(false, [exe.parts[|exe.parts| - 1]])) == exe
  {
    if steam.Some? && radio == 0 then steam else Parent(ParsePath(entry))
  }
}
