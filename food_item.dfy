/**
  The FoodItem record and the text predicates the write path applies to
  its name: `string.IsNullOrWhiteSpace`, `ToLower`, and the case-insensitive
  uniqueness of stored names.

  A `DateTime` is modelled by its tick count (100-nanosecond units since
  0001-01-01), so its `default` value is tick 0.
*/
module FoodModel {
  import opened Wrappers

  /** Ticks in one day, as `TimeSpan.TicksPerDay`. */
  const TicksPerDay: int := 864_000_000_000
  /** Ticks in one hour, as `TimeSpan.TicksPerHour`. */
  const TicksPerHour: int := 36_000_000_000
  /** `default(DateTime)`, i.e. `DateTime.MinValue`. */
  const DefaultDate: int := 0

  /** A stored food item: `Id`, a nullable `Name`, an `ExpirationDate` in ticks. */
  datatype FoodItem = FoodItem(Id: int, Name: Option<string>, ExpirationDate: int)

  /** `char.IsWhiteSpace`: the Unicode space, line and paragraph separators plus the listed controls. */
  predicate IsWhiteSpace(c: char)
    ensures c == ' ' || c == '\t' || c == '\n' || c == '\r' ==> IsWhiteSpace(c)
    ensures 'a' <= c <= 'z' || 'A' <= c <= 'Z' || '0' <= c <= '9' ==> !IsWhiteSpace(c)
  {
    || ('\U{0009}' <= c <= '\U{000D}')
    || c == '\U{0020}' || c == '\U{0085}' || c == '\U{00A0}' || c == '\U{1680}'
    || ('\U{2000}' <= c <= '\U{200A}')
    || c == '\U{2028}' || c == '\U{2029}' || c == '\U{202F}' || c == '\U{205F}' || c == '\U{3000}'
  }

  /** `string.IsNullOrWhiteSpace`: null, empty, or made only of white space. */
  predicate IsNullOrWhiteSpace(s: Option<string>)
    ensures s.None? || s == Some("") ==> IsNullOrWhiteSpace(s)
    ensures s.Some? && (exists i :: 0 <= i < |s.value| && !IsWhiteSpace(s.value[i])) ==> !IsNullOrWhiteSpace(s)
  {
    s.None? || forall i :: 0 <= i < |s.value| ==> IsWhiteSpace(s.value[i])
  }

  /** ASCII stand-in for the culture-sensitive `ToLower()` of one character: only A-Z change. */
  function LowerChar(c: char): char {
    if 'A' <= c <= 'Z' then (c as int + 32) as char else c
  }

  /** `string.ToLower()`, character by character. */
  function ToLower(s: string): (r: string)
    ensures |r| == |s|
    ensures forall i :: 0 <= i < |s| ==> r[i] == LowerChar(s[i])
    ensures forall i :: 0 <= i < |r| ==> !('A' <= r[i] <= 'Z')
    ensures forall i :: 0 <= i < |s| && !('A' <= s[i] <= 'Z') ==> r[i] == s[i]
    decreases |s|
  {
    if s == [] then [] else [LowerChar(s[0])] + ToLower(s[1..])
  }

  /** Lower-casing twice is lower-casing once, so folded names compare stably. */
  lemma {:induction false} ToLowerIdempotent(s: string)
    ensures ToLower(ToLower(s)) == ToLower(s)
    decreases |s|
  {
    if s != [] {
      ToLowerIdempotent(s[1..]);
      assert ToLower(s)[1..] == ToLower(s[1..]);
    }
  }

  /** Two strings differing only in the case of ASCII letters fold to the same name. */
  lemma {:induction false} ToLowerIgnoresCase(s: string, t: string)
    requires |s| == |t|
    requires forall i :: 0 <= i < |s| ==> LowerChar(s[i]) == LowerChar(t[i])
    ensures ToLower(s) == ToLower(t)
    decreases |s|
  {
    if s != [] {
      ToLowerIgnoresCase(s[1..], t[1..]);
    }
  }

  /** The uniqueness query's predicate: `f.Name.ToLower() == name.ToLower()`. A null stored name matches nothing. */
  predicate SameName(item: FoodItem, name: string)
    ensures item.Name.None? ==> !SameName(item, name)
    ensures item.Name == Some(name) ==> SameName(item, name)
    ensures SameName(item, name) ==> |item.Name.value| == |name|
  {
    item.Name.Some? && ToLower(item.Name.value) == ToLower(name)
  }

  /** Two stored items whose names are equal under case-folding. */
  predicate Clash(a: FoodItem, b: FoodItem) {
    a.Name.Some? && SameName(b, a.Name.value)
  }

  /** `db.FoodItems.AnyAsync(f => f.Name.ToLower() == name.ToLower())`. */
  function NameTaken(items: seq<FoodItem>, name: string): (r: bool)
    ensures r <==> exists k :: 0 <= k < |items| && SameName(items[k], name)
    decreases |items|
  {
    if items == [] then false
    else SameName(items[0], name) || NameTaken(items[1..], name)
  }

  /** The store invariant: no two stored items have names equal under case-folding. */
  ghost predicate NamesUnique(items: seq<FoodItem>) {
    forall i, j :: 0 <= i < j < |items| ==> !Clash(items[i], items[j])
  }

  /** Appending a name the uniqueness query did not find keeps the store's names unique. */
  lemma AppendKeepsNamesUnique(items: seq<FoodItem>, item: FoodItem)
    requires NamesUnique(items)
    requires item.Name.Some? && !NameTaken(items, item.Name.value)
    ensures NamesUnique(items + [item])
  {
    var s := items + [item];
    forall i, j | 0 <= i < j < |s| ensures !Clash(s[i], s[j]) {
      if j == |items| {
        assert !SameName(items[i], item.Name.value);
      }
    }
  }

  /** Removing one item keeps the store's names unique. */
  lemma RemoveKeepsNamesUnique(items: seq<FoodItem>, k: nat)
    requires k < |items| && NamesUnique(items)
    ensures NamesUnique(items[..k] + items[k + 1..])
  {
    var s := items[..k] + items[k + 1..];
    forall i, j | 0 <= i < j < |s| ensures !Clash(s[i], s[j]) {
      var i', j' := if i < k then i else i + 1, if j < k then j else j + 1;
      assert s[i] == items[i'] && s[j] == items[j'];
    }
  }
}
