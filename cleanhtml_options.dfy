/**
 * The option handling and the small string utilities of the CleanHTML class
 * (src/CleanHTML/CleanHTML.php): the five-key options array, its validation,
 * the allow-list string handed to the sanitizer, the trailing-newline strip
 * and the typographic-quote normaliser.
 */
module Options {
  import opened Strings

  /** A PHP value as it may be stored under an option key. */
  datatype Value = Bool(b: bool) | Int(i: int) | Str(s: string) | Null

  /** PHP `$value === true`. */
  predicate IsTrue(v: Value) {
    v == Bool(true)
  }

  /** PHP `$value == true`: the value converted to a boolean. */
  predicate Truthy(v: Value) {
    match v
    case Bool(b) => b
    case Int(i) => i != 0
    case Str(s) => s != "" && s != "0"
    case Null => false
  }

  /** The recognised option keys, in the order of the defaults array. */
  const OptionKeys: seq<string> := ["images", "italics", "links", "strip", "table"]

  ghost const KeySet: set<string> := set k | k in OptionKeys

  /** Every key false. */
  function DefaultOptions(): (m: map<string, Value>)
    ensures m.Keys == KeySet
    ensures forall k :: k in m ==> m[k] == Bool(false)
  {
    map k | k in OptionKeys :: Bool(false)
  }

  /** An options array as a caller passes it: ordered keys and their values. */
  type Settings = seq<(string, Value)>

  datatype OptionError = UnknownOption(key: string)

  /** The settings stored one after the other, later keys overwriting earlier ones. */
  function Overlay(m: map<string, Value>, settings: Settings): map<string, Value>
    decreases |settings|
  {
    if settings == [] then m else Overlay(m[settings[0].0 := settings[0].1], settings[1..])
  }

  lemma {:induction false} OverlaySnoc(m: map<string, Value>, settings: Settings, key: string, v: Value)
    ensures Overlay(m, settings + [(key, v)]) == Overlay(m, settings)[key := v]
    decreases |settings|
  {
    if settings == [] {
      assert settings + [(key, v)] == [(key, v)];
    } else {
      assert (settings + [(key, v)])[1..] == settings[1..] + [(key, v)];
      OverlaySnoc(m[settings[0].0 := settings[0].1], settings[1..], key, v);
    }
  }

  /**
   * Storing recognised keys never adds a key, and a key that is not named
   * keeps its value: the options array never changes shape, only values.
   */
  lemma {:induction false} OverlayShape(m: map<string, Value>, settings: Settings)
    requires forall j :: 0 <= j < |settings| ==> settings[j].0 in m
    ensures Overlay(m, settings).Keys == m.Keys
    ensures forall k :: k in m && (forall j :: 0 <= j < |settings| ==> settings[j].0 != k) ==>
      Overlay(m, settings)[k] == m[k]
    decreases |settings|
  {
    if settings != [] {
      var m' := m[settings[0].0 := settings[0].1];
      assert m'.Keys == m.Keys;
      OverlayShape(m', settings[1..]);
      forall k | k in m && (forall j :: 0 <= j < |settings| ==> settings[j].0 != k)
        ensures Overlay(m, settings)[k] == m[k]
      {
        assert settings[0].0 != k;
        assert forall j :: 0 <= j < |settings[1..]| ==> settings[1..][j].0 == settings[j + 1].0;
      }
    }
  }

  /** The value stored for a key is the one given last for it in the settings. */
  lemma {:induction false} OverlayLast(m: map<string, Value>, settings: Settings, j: nat)
    requires j < |settings|
    requires forall l :: j < l < |settings| ==> settings[l].0 != settings[j].0
    ensures settings[j].0 in Overlay(m, settings)
    ensures Overlay(m, settings)[settings[j].0] == settings[j].1
  {
    var k := settings[j].0;
    assert settings == settings[..j + 1] + settings[j + 1..];
    OverlayPrefix(m, settings[..j + 1], settings[j + 1..]);
    OverlaySnoc(m, settings[..j], k, settings[j].1);
    assert settings[..j + 1] == settings[..j] + [(k, settings[j].1)];
    OverlayAvoids(Overlay(m, settings[..j + 1]), settings[j + 1..], k);
  }

  lemma {:induction false} OverlayPrefix(m: map<string, Value>, a: Settings, b: Settings)
    ensures Overlay(m, a + b) == Overlay(Overlay(m, a), b)
    decreases |a|
  {
    if a == [] {
      assert a + b == b;
    } else {
      assert (a + b)[1..] == a[1..] + b;
      OverlayPrefix(m[a[0].0 := a[0].1], a[1..], b);
    }
  }

  lemma {:induction false} OverlayAvoids(m: map<string, Value>, settings: Settings, k: string)
    requires k in m
    requires forall l :: 0 <= l < |settings| ==> settings[l].0 != k
    ensures k in Overlay(m, settings) && Overlay(m, settings)[k] == m[k]
    decreases |settings|
  {
    if settings != [] {
      OverlayAvoids(m[settings[0].0 := settings[0].1], settings[1..], k);
    }
  }

  /** Index of the first key that is not one of the five, if any. */
  function FirstUnknown(settings: Settings): (r: Option<nat>)
    ensures r.Some? ==> r.value < |settings| && settings[r.value].0 !in OptionKeys
    ensures r.Some? ==> forall j :: 0 <= j < r.value ==> settings[j].0 in OptionKeys
    ensures r.None? <==> forall j :: 0 <= j < |settings| ==> settings[j].0 in OptionKeys
  {
    FirstUnknownFrom(settings, 0)
  }

  function FirstUnknownFrom(settings: Settings, i: nat): (r: Option<nat>)
    requires i <= |settings|
    requires forall j :: 0 <= j < i ==> settings[j].0 in OptionKeys
    ensures r.Some? ==> i <= r.value < |settings| && settings[r.value].0 !in OptionKeys
    ensures r.Some? ==> forall j :: 0 <= j < r.value ==> settings[j].0 in OptionKeys
    ensures r.None? <==> forall j :: 0 <= j < |settings| ==> settings[j].0 in OptionKeys
    decreases |settings| - i
  {
    if i == |settings| then None
    else if settings[i].0 !in OptionKeys then Some(i)
    else FirstUnknownFrom(settings, i + 1)
  }

  /** The tags that are always allowed. */
  const DefaultAllowedTags: string := "h1,h2,h3,h4,h5,p,strong,b,ul,ol,li,hr,pre,code"

  /**
   * What an enabled option adds to the allow-list, position by position with
   * OptionKeys; each fragment starts with its own comma and `strip` has none.
   */
  const Fragments: seq<Option<string>> :=
    [Some(",img[src|alt]"), Some(",em,i"), Some(",a[href|target]"), None, Some(",table,tr,td")]

  /** The well-formed options array: exactly the five keys. */
  ghost predicate WellShaped(opts: map<string, Value>) {
    opts.Keys == KeySet
  }

  /** What the allow-list loop appends for the option at position `i`: a comma, then its fragment. */
  function Addition(opts: map<string, Value>, i: nat): string
    requires WellShaped(opts) && i < |OptionKeys|
  {
    if Fragments[i].Some? && IsTrue(opts[OptionKeys[i]]) then "," + Fragments[i].value else ""
  }

  /** What the allow-list loop has appended after visiting the first `n` keys. */
  function AdditionsUpTo(opts: map<string, Value>, n: nat): string
    requires WellShaped(opts) && n <= |OptionKeys|
  {
    if n == 0 then "" else AdditionsUpTo(opts, n - 1) + Addition(opts, n - 1)
  }

  /** The allow-list string: `strip` dominates; otherwise the defaults and every enabled fragment in key order. */
  function AllowedTags(opts: map<string, Value>): string
    requires WellShaped(opts)
  {
    if IsTrue(opts["strip"]) then "" else DefaultAllowedTags + AdditionsUpTo(opts, |OptionKeys|)
  }

  /** `fragment` when `on`, nothing otherwise. */
  function Part(on: bool, fragment: string): string {
    if on then fragment else ""
  }

  /** What the option at position `i` adds when it is `=== true`: a comma and its fragment. */
  function Enabled(opts: map<string, Value>, i: nat): string
    requires WellShaped(opts) && i < |OptionKeys| && Fragments[i].Some?
  {
    Part(IsTrue(opts[OptionKeys[i]]), "," + Fragments[i].value)
  }

  /**
   * The allow-list written out: `strip` gives the empty string; otherwise
   * the enabled fragments follow the defaults in the order of the options
   * array (images, italics, links, then table), each behind a second comma.
   */
  lemma AllowedTagsInOrder(opts: map<string, Value>)
    requires WellShaped(opts)
    ensures AllowedTags(opts) ==
      if IsTrue(opts["strip"]) then ""
      else DefaultAllowedTags + Enabled(opts, 0) + Enabled(opts, 1) + Enabled(opts, 2) + Enabled(opts, 4)
  {
    var a, b, c, d := Enabled(opts, 0), Enabled(opts, 1), Enabled(opts, 2), Enabled(opts, 4);
    assert AdditionsUpTo(opts, 1) == a;
    assert AdditionsUpTo(opts, 2) == a + b;
    assert AdditionsUpTo(opts, 3) == a + b + c;
    assert AdditionsUpTo(opts, 4) == a + b + c;
    assert AdditionsUpTo(opts, 5) == a + b + c + d;
    JoinFive(DefaultAllowedTags, a, b, c, d);
  }

  lemma JoinFive(p: string, a: string, b: string, c: string, d: string)
    ensures p + (a + b + c + d) == p + a + b + c + d
  {
  }

  /** `isset($options[$key]) && $options[$key] == true`, the test of the legacy `Clean`. */
  predicate LegacyEnabled(options: map<string, Value>, key: string) {
    key in options && Truthy(options[key])
  }

  /** What the legacy `Clean` adds for the option at position `i` when it is enabled: its fragment alone. */
  function LegacyPart(options: map<string, Value>, i: nat): string
    requires i < |OptionKeys| && Fragments[i].Some?
  {
    Part(LegacyEnabled(options, OptionKeys[i]), Fragments[i].value)
  }

  /**
   * The allow-list of the legacy `Clean`, built from the options passed to
   * `Clean` itself, not from the object's: the defaults, then the fragments
   * for images, links, italics and table in that order behind a single
   * comma, and the empty string when `strip` is enabled.
   */
  function LegacyAllowedTags(options: Option<map<string, Value>>): (tags: string)
    ensures options.None? ==> tags == DefaultAllowedTags
    ensures options.Some? && LegacyEnabled(options.value, "strip") ==> tags == ""
    ensures options.Some? && !LegacyEnabled(options.value, "strip") ==>
      |tags| >= |DefaultAllowedTags| && tags[..|DefaultAllowedTags|] == DefaultAllowedTags
  {
    match options
    case None => DefaultAllowedTags
    case Some(o) =>
      if LegacyEnabled(o, "strip") then ""
      else
        var tags := DefaultAllowedTags + LegacyPart(o, 0) + LegacyPart(o, 2) + LegacyPart(o, 1) + LegacyPart(o, 4);
        assert tags[..|DefaultAllowedTags|] == DefaultAllowedTags;
        tags
  }

  /**
   * For options that are all booleans the two allow-lists enable the same
   * fragments, but the current one puts italics before links and a second
   * comma before each fragment.
   */
  lemma AllowListsCompared(opts: map<string, Value>)
    requires WellShaped(opts) && forall k :: k in opts ==> opts[k].Bool?
    requires !IsTrue(opts["strip"])
    ensures forall i :: 0 <= i < |OptionKeys| && Fragments[i].Some? ==>
      LegacyPart(opts, i) == Part(IsTrue(opts[OptionKeys[i]]), Fragments[i].value)
      && Enabled(opts, i) == Part(IsTrue(opts[OptionKeys[i]]), "," + Fragments[i].value)
    ensures LegacyAllowedTags(Some(opts)) ==
      DefaultAllowedTags + LegacyPart(opts, 0) + LegacyPart(opts, 2) + LegacyPart(opts, 1) + LegacyPart(opts, 4)
    ensures AllowedTags(opts) ==
      DefaultAllowedTags + Enabled(opts, 0) + Enabled(opts, 1) + Enabled(opts, 2) + Enabled(opts, 4)
  {
    assert "strip" in opts;
    AllowedTagsInOrder(opts);
  }

  /** `strip` wins in both allow-lists, whatever else is enabled. */
  lemma StripDominates(opts: map<string, Value>)
    requires WellShaped(opts) && opts["strip"] == Bool(true)
    ensures AllowedTags(opts) == "" && LegacyAllowedTags(Some(opts)) == ""
  {
  }

  /** The CleanHTML object: the options array is its only state. */
  class CleanHTML {
    var options: map<string, Value>
    const defaultAllowedTags: string

    ghost predicate Valid()
      reads this
    {
      WellShaped(options) && defaultAllowedTags == DefaultAllowedTags
    }

    /** A fresh object holds the five keys, all false. */
    constructor ()
      ensures Valid()
      ensures options == DefaultOptions()
      ensures options.Keys == {"images", "italics", "links", "strip", "table"}
    {
      defaultAllowedTags := DefaultAllowedTags;
      options := DefaultOptions();
    }

    /**
     * Stores the settings key by key. An unknown key stops the loop with an
     * error naming it; the keys before it are already stored.
     */
    method SetOptions(settings: Settings) returns (r: Option<OptionError>)
      requires Valid()
      modifies this
      ensures Valid()
      ensures r.None? <==> FirstUnknown(settings).None?
      ensures r.None? ==> options == Overlay(old(options), settings)
      ensures r.Some? ==>
        var j := FirstUnknown(settings).value;
        r.value == UnknownOption(settings[j].0) && options == Overlay(old(options), settings[..j])
    {
      var i := 0;
      while i < |settings|
        invariant 0 <= i <= |settings|
        invariant forall j :: 0 <= j < i ==> settings[j].0 in OptionKeys
        invariant options == Overlay(old(options), settings[..i])
        invariant Valid()
      {
        var key := settings[i].0;
        if key !in OptionKeys {
          return Some(UnknownOption(key));
        }
        OverlaySnoc(old(options), settings[..i], key, settings[i].1);
        assert settings[..i + 1] == settings[..i] + [(key, settings[i].1)];
        options := options[key := settings[i].1];
        i := i + 1;
      }
      assert settings[..i] == settings;
      return None;
    }

    /** The options array; whatever was stored, it holds exactly the five keys. */
    function GetOptions(): (m: map<string, Value>)
      reads this
      requires Valid()
      ensures m.Keys == {"images", "italics", "links", "strip", "table"}
    {
      options
    }

    /**
     * The allow-list: the default tags, then a comma and the fragment of each
     * option whose value is `=== true`, in the order of the options array;
     * the empty string when `strip` is `=== true`.
     */
    method GetAllowedTags() returns (tags: string)
      requires Valid()
      ensures tags == AllowedTags(options)
      ensures IsTrue(options["strip"]) ==> tags == ""
    {
      tags := defaultAllowedTags;
      for i := 0 to |OptionKeys|
        invariant tags == defaultAllowedTags + AdditionsUpTo(options, i)
      {
        var name := OptionKeys[i];
        ghost var before := tags;
        if Fragments[i].Some? && IsTrue(options[name]) {
          tags := tags + ("," + Fragments[i].value);
        }
        assert tags == before + Addition(options, i);
        AppendAssoc(defaultAllowedTags, AdditionsUpTo(options, i), Addition(options, i));
      }
      if IsTrue(options["strip"]) {
        tags := "";
      }
    }
  }

  /** `new CleanHTML($options)`: the defaults, then the given settings; an unknown key throws. */
  method New(settings: Option<Settings>) returns (c: CleanHTML, r: Option<OptionError>)
    ensures fresh(c) && c.Valid()
    ensures r.None? <==> settings.None? || FirstUnknown(settings.value).None?
    ensures r.None? && settings.Some? ==> c.options == Overlay(DefaultOptions(), settings.value)
    ensures settings.None? ==> c.options == DefaultOptions()
    ensures r.Some? ==> r.value == UnknownOption(settings.value[FirstUnknown(settings.value).value].0)
  {
    c := new CleanHTML();
    r := None;
    if settings.Some? {
      r := c.SetOptions(settings.value);
    }
  }

  /** With valid keys only, the stored options keep exactly the five keys and unnamed keys stay false. */
  lemma {:induction false} NewShape(settings: Settings)
    requires FirstUnknown(settings).None?
    ensures Overlay(DefaultOptions(), settings).Keys == KeySet
    ensures forall k :: k in KeySet && (forall j :: 0 <= j < |settings| ==> settings[j].0 != k) ==>
      Overlay(DefaultOptions(), settings)[k] == Bool(false)
  {
    OverlayShape(DefaultOptions(), settings);
  }

  /**
   * Removes one trailing newline, if there is one.
   */
  function RemoveLastNewLine(input: string): (r: string)
    ensures |input| > 0 && input[|input| - 1] == '\n' ==> input == r + "\n"
    ensures !(|input| > 0 && input[|input| - 1] == '\n') ==> r == input
  {
    var len := |input|;
    if len > 0 && input[len - 1] == '\n' then input[..len - 1] else input
  }

  /** Only one newline goes: a string ending in two keeps the first. */
  lemma RemoveLastNewLineOnce(s: string)
    ensures RemoveLastNewLine(s + "\n\n") == s + "\n"
  {
  }

  /** The strtr table: each typographic quote, in UTF-8 bytes, and the ASCII quote it becomes. */
  const QuoteTable: map<string, char> := map[
    "\U{C2}\U{AB}" := '"', "\U{C2}\U{BB}" := '"',
    "\U{E2}\U{80}\U{98}" := '\'', "\U{E2}\U{80}\U{99}" := '\'',
    "\U{E2}\U{80}\U{9A}" := '\'', "\U{E2}\U{80}\U{9B}" := '\'',
    "\U{E2}\U{80}\U{9C}" := '"', "\U{E2}\U{80}\U{9D}" := '"',
    "\U{E2}\U{80}\U{9E}" := '"', "\U{E2}\U{80}\U{9F}" := '"',
    "\U{E2}\U{80}\U{B9}" := '\'', "\U{E2}\U{80}\U{BA}" := '\''
  ]

  /**
   * The typographic quote that starts at `i`, as a (byte length, ASCII
   * replacement) pair: the twelve entries of the strtr table.
   */
  function QuoteAt(s: string, i: nat): (r: Option<(nat, char)>)
    ensures r.Some? ==> i + r.value.0 <= |s| && r.value.0 >= 2
    ensures r.Some? ==> r.value.0 <= 3
    ensures r.Some? ==> s[i] == '\U{C2}' || s[i] == '\U{E2}'
    ensures r.Some? ==> r.value.1 == '"' || r.value.1 == '\''
  {
    if i + 2 <= |s| && s[i] == '\U{C2}' && (s[i + 1] == '\U{AB}' || s[i + 1] == '\U{BB}') then
      // U+00AB and U+00BB, the guillemets
      Some((2, '"'))
    else if i + 3 <= |s| && s[i] == '\U{E2}' && s[i + 1] == '\U{80}' then
      var c := s[i + 2];
      if c == '\U{98}' || c == '\U{99}' || c == '\U{9A}' || c == '\U{9B}' || c == '\U{B9}' || c == '\U{BA}' then
        // U+2018..U+201B single quotes and U+2039, U+203A single guillemets
        Some((3, '\''))
      else if c == '\U{9C}' || c == '\U{9D}' || c == '\U{9E}' || c == '\U{9F}' then
        // U+201C..U+201F double quotes
        Some((3, '"'))
      else None
    else None
  }

  /**
   * The quote found at `i` is an entry of the strtr table, and none is found
   * exactly when no key of the table starts at `i`.
   */
  lemma QuoteAtTable(s: string, i: nat)
    ensures QuoteAt(s, i).Some? ==> var n := QuoteAt(s, i).value.0;
      s[i..i + n] in QuoteTable && QuoteTable[s[i..i + n]] == QuoteAt(s, i).value.1
    ensures QuoteAt(s, i).None? <==> forall k :: k in QuoteTable ==> !(i + |k| <= |s| && s[i..i + |k|] == k)
  {
    if QuoteAt(s, i).Some? {
      QuoteAtKey(s, i, QuoteAt(s, i).value.0, QuoteAt(s, i).value.1);
    } else {
      forall k | k in QuoteTable && i + |k| <= |s| ensures s[i..i + |k|] != k {
        NoKeyAt(s, i, k);
      }
    }
  }

  /** A match of `QuoteAt` spells out a key of the table, with that key's value. */
  lemma QuoteAtKey(s: string, i: nat, n: nat, c: char)
    requires QuoteAt(s, i) == Some((n, c))
    ensures s[i..i + n] in QuoteTable && QuoteTable[s[i..i + n]] == c
  {
    if n == 2 {
      assert s[i..i + n] == [s[i], s[i + 1]];
    } else {
      assert s[i..i + n] == [s[i], s[i + 1], s[i + 2]];
    }
  }

  /** Where `QuoteAt` finds nothing, no key of the table starts. */
  lemma NoKeyAt(s: string, i: nat, k: string)
    requires QuoteAt(s, i).None? && k in QuoteTable && i + |k| <= |s|
    ensures s[i..i + |k|] != k
  {
    var w := s[i..i + |k|];
    assert w[0] == s[i] && w[1] == s[i + 1];
    assert |k| == 3 ==> w[2] == s[i + 2];
  }

  predicate NoQuotes(s: string) {
    forall i: nat | i < |s| :: QuoteAt(s, i).None?
  }

  /**
   * PHP `strtr` with the quote table: scanning left to right, each table
   * sequence becomes its ASCII quote and every other byte is copied. The
   * result contains none of the twelve sequences.
   */
  function ChangeQuotes(input: string): (r: string)
    ensures NoQuotes(r)
    ensures |input| > 0 ==> |r| > 0 && (r[0] == input[0] || QuoteAt(input, 0).Some?)
    ensures |input| > 0 && r[0] as int >= 0x80 ==> r[0] == input[0]
    decreases |input|, 1
  {
    if input == [] then []
    else match QuoteAt(input, 0)
      case Some(q) =>
        var rest := ChangeQuotes(input[q.0..]);
        ShiftNoQuotes(q.1, rest);
        [q.1] + rest
      case None =>
        var rest := ChangeQuotes(input[1..]);
        CopiedByteStartsNoQuote(input);
        ShiftNoQuotes(input[0], rest);
        [input[0]] + rest
  }

  /**
   * A byte that does not start a table sequence, copied in front of the
   * rest of the translation, does not start one either: the bytes that
   * could complete it are copied unchanged from the input.
   */
  lemma CopiedByteStartsNoQuote(input: string)
    requires input != [] && QuoteAt(input, 0).None?
    ensures QuoteAt([input[0]] + ChangeQuotes(input[1..]), 0).None?
    decreases |input|, 0
  {
    var tail := input[1..];
    var rest := ChangeQuotes(tail);
    var t := [input[0]] + rest;
    LeadByte(tail);
    if |rest| >= 1 && rest[0] as int >= 0x80 {
      assert t[1] == input[1];
      LeadByte(tail[1..]);
      assert tail[1..] == input[2..];
      assert |rest| >= 2 && rest[1] as int >= 0x80 ==> t[2] == input[2];
    }
  }

  /** A byte from 0x80 up at the front of a translation was copied there from the input. */
  lemma LeadByte(x: string)
    ensures |ChangeQuotes(x)| >= 1 && ChangeQuotes(x)[0] as int >= 0x80 ==>
      |x| >= 1 && QuoteAt(x, 0).None? && ChangeQuotes(x) == [x[0]] + ChangeQuotes(x[1..])
    decreases |x|, 2
  {
  }

  lemma ShiftNoQuotes(c: char, rest: string)
    requires NoQuotes(rest)
    requires QuoteAt([c] + rest, 0).None?
    ensures NoQuotes([c] + rest)
  {
    var t := [c] + rest;
    forall i: nat | i < |t| ensures QuoteAt(t, i).None? {
      if i > 0 {
        assert QuoteAt(rest, i - 1).None?;
        assert forall k :: i <= k < |t| ==> t[k] == rest[k - 1];
      }
    }
  }

  /** A string without any of the twelve sequences is returned unchanged. */
  lemma {:induction false} ChangeQuotesIdentity(s: string)
    requires NoQuotes(s)
    ensures ChangeQuotes(s) == s
    decreases |s|
  {
    if s != [] {
      assert QuoteAt(s, 0).None?;
      forall i: nat | i < |s[1..]| ensures QuoteAt(s[1..], i).None? {
        assert QuoteAt(s, i + 1).None?;
        assert forall k :: i + 1 <= k < |s| ==> s[1..][k - 1] == s[k];
      }
      ChangeQuotesIdentity(s[1..]);
    }
  }

  /** Normalising twice is normalising once. */
  lemma ChangeQuotesIdempotent(s: string)
    ensures ChangeQuotes(ChangeQuotes(s)) == ChangeQuotes(s)
  {
    ChangeQuotesIdentity(ChangeQuotes(s));
  }
}
