/**
 * Choosing the response format from the negotiated media type, and the plain-text
 * format: scalars as text, maps as sorted key lines, sequences as index lines.
 */
module Render {
  import opened Values
  import opened Strings
  import opened Sorting
  import opened Decimal
  import opened Foreign

  datatype ContentType = Text | Json | Yaml

  /** `contentType`: a negotiated type mentioning `json` wins over one mentioning `yaml`; anything else is text. */
  function ContentTypeOf(negotiated: string): (r: ContentType)
    ensures r == Json <==> IsInfix("json", negotiated)
    ensures r == Yaml <==> !IsInfix("json", negotiated) && IsInfix("yaml", negotiated)
    ensures r == Text <==> !IsInfix("json", negotiated) && !IsInfix("yaml", negotiated)
  {
    if Contains(negotiated, "json") then Json
    else if Contains(negotiated, "yaml") then Yaml
    else Text
  }

  /**
   * The media types the server offers for negotiation, in its order; the first is also
   * what negotiation falls back to.
   */
  const Offers: seq<string> :=
    ["text/plain", "application/json", "application/yaml", "application/x-yaml", "text/yaml", "text/x-yaml"]

  /** Of the offered types, `text/plain` selects text, `application/json` JSON and the other four YAML. */
  lemma OffersSelectFormats(i: nat)
    requires i < |Offers|
    ensures ContentTypeOf(Offers[i]) == if i == 0 then Text else if i == 1 then Json else Yaml
  {
    if i == 0 {
      NeitherIsText(Offers[0]);
    } else if i == 1 {
      assert Offers[1] == "application/" + "json";
      JsonSuffix("application/");
    } else {
      YamlOffersSelectYaml(i);
    }
  }

  /** The four YAML spellings on offer all select YAML. */
  lemma YamlOffersSelectYaml(i: nat)
    requires 2 <= i < |Offers|
    ensures ContentTypeOf(Offers[i]) == Yaml
  {
    var prefix := if i == 2 then "application/" else if i == 3 then "application/x-" else if i == 4 then "text/" else "text/x-";
    assert Offers[i] == prefix + "yaml";
    YamlSuffix(prefix);
  }

  /** A type without the letters `j` and `y` selects text. */
  lemma NeitherIsText(negotiated: string)
    requires 'j' !in negotiated && 'y' !in negotiated
    ensures ContentTypeOf(negotiated) == Text
  {
    MissingFirstCharIsNoInfix("json", negotiated);
    MissingFirstCharIsNoInfix("yaml", negotiated);
  }

  /** A type ending in `json` selects JSON. */
  lemma JsonSuffix(prefix: string)
    ensures ContentTypeOf(prefix + "json") == Json
  {
    assert (prefix + "json")[|prefix|..] == "json";
  }

  /** A type ending in `yaml` whose first part has no `j` selects YAML. */
  lemma YamlSuffix(prefix: string)
    requires 'j' !in prefix
    ensures ContentTypeOf(prefix + "yaml") == Yaml
  {
    var s := prefix + "yaml";
    assert s[|prefix|..] == "yaml";
    assert 'j' !in s by {
      forall i | 0 <= i < |s|
        ensures s[i] != 'j'
      {
        if i < |prefix| {
          assert s[i] == prefix[i];
        }
      }
    }
    MissingFirstCharIsNoInfix("json", s);
  }

  /** A string cannot occur where its first character does not. */
  lemma MissingFirstCharIsNoInfix(sub: string, s: string)
    requires |sub| > 0 && sub[0] !in s
    ensures !IsInfix(sub, s)
  {
  }

  /**
   * The text of a float: its `%f` form with trailing zeros cut off, then a trailing
   * decimal point. Only `0`s and `.`s are ever removed, and a final `.` is never kept.
   */
  function TrimFloat(fixed: string): (r: string)
    ensures r <= fixed
    ensures |r| == 0 || r[|r| - 1] != '.'
    ensures forall i :: |r| <= i < |fixed| ==> fixed[i] == '0' || fixed[i] == '.'
  {
    TrimRight(TrimRight(fixed, '0'), '.')
  }

  /**
   * On fixed-point text `whole.frac` the integer digits always survive; the fraction
   * loses its trailing zeros, and the point goes with it when nothing is left after it.
   */
  lemma {:induction false} TrimFloatFixedPoint(whole: string, frac: string)
    requires '.' !in whole && '.' !in frac
    ensures var f := TrimRight(frac, '0');
      TrimFloat(whole + "." + frac) == if f == "" then whole else whole + "." + f
  {
    var s := whole + "." + frac;
    var f := TrimRight(frac, '0');
    var t := whole + "." + f;
    assert forall i :: |t| <= i < |s| ==> s[i] == frac[i - |whole| - 1];
    TrimRightUnique(s, '0', t);
    if f == "" {
      assert t == whole + ".";
      TrimRightUnique(t, '.', whole);
    } else {
      assert t[|t| - 1] == frac[|f| - 1];
      TrimRightUnique(t, '.', t);
    }
  }

  lemma TrimFloatDropsZeroFraction()
    ensures TrimFloat("4.000000") == "4"
    ensures TrimFloat("10.000000") == "10"
  {
    TrimRightUnique("000000", '0', "");
    assert "4.000000" == "4" + "." + "000000";
    TrimFloatFixedPoint("4", "000000");
    assert "10.000000" == "10" + "." + "000000";
    TrimFloatFixedPoint("10", "000000");
  }

  lemma TrimFloatKeepsSignificantFraction()
    ensures TrimFloat("3.500000") == "3.5"
  {
    TrimRightUnique("500000", '0', "5");
    assert "3.500000" == "3" + "." + "500000";
    TrimFloatFixedPoint("3", "500000");
  }

  /** The line a map field is listed by: its escaped key, `/` when the value has children. */
  function MapLine(key: string, value: Value, lib: Routines): (line: string)
    ensures lib.queryEscape(key) <= line
    ensures line[|lib.queryEscape(key)|..] == if value.IsComposite() then "/\n" else "\n"
  {
    lib.queryEscape(key) + (if value.IsComposite() then "/" else "") + "\n"
  }

  /** `line` is the line of some key of `m`. */
  ghost predicate IsKeyLine(m: map<string, Value>, lib: Routines, line: string)
  {
    exists k :: k in m && line == MapLine(k, m[k], lib)
  }

  /** `order` lists every key of `m` exactly once: one way Go may iterate over the map. */
  ghost predicate EnumeratesKeys(order: seq<string>, m: map<string, Value>)
  {
    && (forall i, j :: 0 <= i < j < |order| ==> order[i] != order[j])
    && (forall k :: k in order <==> k in m)
  }

  /** The line of each key of `m`; keys outside `m` are never asked for. */
  function LineOf(m: map<string, Value>, lib: Routines): string -> string
  {
    k => if k in m then MapLine(k, m[k], lib) else ""
  }

  lemma {:induction false} EnumerationLength(order: seq<string>, keys: set<string>)
    requires forall i, j :: 0 <= i < j < |order| ==> order[i] != order[j]
    requires forall k :: k in order <==> k in keys
    ensures |order| == |keys|
  {
    if |order| > 0 {
      var rest := keys - {order[0]};
      forall k
        ensures k in order[1..] <==> k in rest
      {
        if k in order[1..] {
          var i :| 1 <= i < |order| && order[i] == k;
        }
      }
      EnumerationLength(order[1..], rest);
    } else {
      assert keys == {};
    }
  }

  lemma {:induction false} DistinctMultiplicity(order: seq<string>, x: string)
    requires forall i, j :: 0 <= i < j < |order| ==> order[i] != order[j]
    ensures multiset(order)[x] == if x in order then 1 else 0
  {
    if |order| > 0 {
      DistinctMultiplicity(order[1..], x);
      assert order == [order[0]] + order[1..];
      if x == order[0] {
        assert x !in order[1..];
      }
    }
  }

  /**
   * The lines a map is rendered as: one per key, each the key's `MapLine`, sorted by
   * their full text (escaping and the `/` take part in the order).
   */
  function MapLines(m: map<string, Value>, order: seq<string>, lib: Routines): (lines: seq<string>)
    requires EnumeratesKeys(order, m)
    ensures |lines| == |m|
    ensures Sorted(lines)
    ensures multiset(lines) == multiset(Apply(LineOf(m, lib), order))
    ensures forall k :: k in m ==> MapLine(k, m[k], lib) in lines
    ensures forall i :: 0 <= i < |lines| ==> IsKeyLine(m, lib, lines[i])
  {
    var unsorted := Apply(LineOf(m, lib), order);
    var lines := Sort(unsorted);
    EnumerationLength(order, m.Keys);
    assert |lines| == |multiset(lines)| == |multiset(unsorted)| == |unsorted|;
    SortedLinesCoverKeys(m, order, lib, lines);
    SortedLinesComeFromKeys(m, order, lib, lines);
    lines
  }

  lemma SortedLinesCoverKeys(m: map<string, Value>, order: seq<string>, lib: Routines, lines: seq<string>)
    requires EnumeratesKeys(order, m)
    requires multiset(lines) == multiset(Apply(LineOf(m, lib), order))
    ensures forall k :: k in m ==> MapLine(k, m[k], lib) in lines
  {
    var unsorted := Apply(LineOf(m, lib), order);
    forall k | k in m
      ensures MapLine(k, m[k], lib) in lines
    {
      var i :| 0 <= i < |order| && order[i] == k;
      assert unsorted[i] in multiset(unsorted);
    }
  }

  lemma SortedLinesComeFromKeys(m: map<string, Value>, order: seq<string>, lib: Routines, lines: seq<string>)
    requires EnumeratesKeys(order, m)
    requires multiset(lines) == multiset(Apply(LineOf(m, lib), order))
    ensures forall i :: 0 <= i < |lines| ==> IsKeyLine(m, lib, lines[i])
  {
    var unsorted := Apply(LineOf(m, lib), order);
    forall i | 0 <= i < |lines|
      ensures IsKeyLine(m, lib, lines[i])
    {
      assert lines[i] in multiset(unsorted);
      var j :| 0 <= j < |unsorted| && unsorted[j] == lines[i];
      assert order[j] in m;
    }
  }

  /** However Go happens to iterate over the map, the listing is the same. */
  lemma {:induction false} MapLinesOrderIndependent(m: map<string, Value>, o1: seq<string>, o2: seq<string>, lib: Routines)
    requires EnumeratesKeys(o1, m) && EnumeratesKeys(o2, m)
    ensures MapLines(m, o1, lib) == MapLines(m, o2, lib)
  {
    forall x
      ensures multiset(o1)[x] == multiset(o2)[x]
    {
      DistinctMultiplicity(o1, x);
      DistinctMultiplicity(o2, x);
    }
    assert multiset(o1) == multiset(o2);
    ApplyPermutation(LineOf(m, lib), o1, o2);
    SortDependsOnlyOnMultiset(Apply(LineOf(m, lib), o1), Apply(LineOf(m, lib), o2));
  }

  /** A sequence element's `name` field, when it has one, holds a string. */
  predicate NameIsString(item: Value)
  {
    item.Map? && MagicArrayKey in item.fields ==> item.fields[MagicArrayKey].Str?
  }

  /**
   * The line a sequence element is listed by: `i=name` for a map with a `name` field,
   * else `i/` for a map or sequence, else `i`.
   */
  function SeqLine(index: nat, item: Value, lib: Routines): (line: string)
    requires NameIsString(item)
    ensures var n := NatToString(index);
      && n <= line
      && line[|n|..] == if item.Map? && MagicArrayKey in item.fields
                        then "=" + lib.queryEscape(item.fields[MagicArrayKey].s) + "\n"
                        else if item.IsComposite() then "/\n" else "\n"
  {
    if item.Map? && MagicArrayKey in item.fields then
      NatToString(index) + "=" + lib.queryEscape(item.fields[MagicArrayKey].s) + "\n"
    else if item.IsComposite() then
      NatToString(index) + "/\n"
    else
      NatToString(index) + "\n"
  }

  /** The element lines, in index order. */
  function SeqLines(items: seq<Value>, lib: Routines): (lines: seq<string>)
    requires forall i :: 0 <= i < |items| ==> NameIsString(items[i])
    ensures |lines| == |items|
    ensures forall i :: 0 <= i < |items| ==> lines[i] == SeqLine(i, items[i], lib)
  {
    if |items| == 0 then []
    else
      var last := |items| - 1;
      SeqLines(items[..last], lib) + [SeqLine(last, items[last], lib)]
  }

  /**
   * An element line can be read back: its leading digits give the element's index, and
   * the character after them tells a named map (`=`) from a map or sequence (`/`) from
   * a scalar (the newline).
   */
  lemma SeqLineReadBack(index: nat, item: Value, lib: Routines)
    requires NameIsString(item)
    ensures var line := SeqLine(index, item, lib);
      var digits := LeadingDigits(line);
      && ParseNat(digits) == index
      && |digits| < |line|
      && (line[|digits|] == '=' <==> item.Map? && MagicArrayKey in item.fields)
      && (line[|digits|] == '/' <==> item.IsComposite() && !(item.Map? && MagicArrayKey in item.fields))
      && (line[|digits|] == '\n' <==> !item.IsComposite())
  {
    SeqLineAfterIndex(index, item, lib);
  }

  /** The digits of an element line are its index, and one marker character follows them. */
  lemma SeqLineAfterIndex(index: nat, item: Value, lib: Routines)
    requires NameIsString(item)
    ensures var n := NatToString(index);
      var line := SeqLine(index, item, lib);
      && |n| < |line|
      && LeadingDigits(line) == n
      && line[|n|] == if item.Map? && MagicArrayKey in item.fields then '='
                      else if item.IsComposite() then '/' else '\n'
  {
    var n := NatToString(index);
    var line := SeqLine(index, item, lib);
    var rest := line[|n|..];
    assert line == n + rest;
    LeadingDigitsOfNumber(n, rest);
  }

  /**
   * A map line can be read back: when escaped keys hold no `/`, the line ends in `/`
   * and a newline exactly when the field's value is a map or sequence.
   */
  lemma MapLineReadBack(key: string, value: Value, lib: Routines)
    requires EscapeHasNoSlash(lib)
    ensures var line := MapLine(key, value, lib);
      && |line| >= 1 && line[|line| - 1] == '\n'
      && (|line| >= 2 && line[|line| - 2] == '/' <==> value.IsComposite())
  {
    var escaped := lib.queryEscape(key);
    var line := MapLine(key, value, lib);
    if !value.IsComposite() && |line| >= 2 {
      assert line[|line| - 2] == escaped[|escaped| - 1];
    }
  }

  /** A map line is one line of text when the escaping keeps newlines out of keys. */
  lemma MapLineIsLine(key: string, value: Value, lib: Routines)
    requires EscapeKeepsLines(lib)
    ensures IsLine(MapLine(key, value, lib))
  {
    var line := MapLine(key, value, lib);
    assert line[..|line| - 1] == lib.queryEscape(key) + (if value.IsComposite() then "/" else "");
  }

  lemma SeqLineIsLine(index: nat, item: Value, lib: Routines)
    requires NameIsString(item)
    requires EscapeKeepsLines(lib)
    ensures IsLine(SeqLine(index, item, lib))
  {
    var n := NatToString(index);
    var line := SeqLine(index, item, lib);
    if item.Map? && MagicArrayKey in item.fields {
      assert line[..|line| - 1] == n + "=" + lib.queryEscape(item.fields[MagicArrayKey].s);
    } else if item.IsComposite() {
      assert line[..|line| - 1] == n + "/";
    } else {
      assert line[..|line| - 1] == n;
    }
  }

  /**
   * `respondText` for the values the server can hold. A map is listed by `MapLines`
   * over the key order Go visits it in; a sequence by `SeqLines` from index 0.
   */
  function RenderText(v: Value, keyOrder: seq<string>, lib: Routines): (out: string)
    requires v.Map? ==> EnumeratesKeys(keyOrder, v.fields)
    requires v.Seq? ==> forall i :: 0 <= i < |v.items| ==> NameIsString(v.items[i])
    ensures v.Null? ==> out == ""
    ensures v.Str? ==> out == v.s
    ensures v.Int? ==> out == IntToString(v.i) && ParseInt(out) == v.i
    ensures v.Bool? ==> (out == "true" <==> v.b) && (out == "false" <==> !v.b)
    ensures v.Float? ==> out == TrimFloat(lib.formatFixed(v.f))
    ensures v.Map? ==> out == Concat(MapLines(v.fields, keyOrder, lib))
    ensures v.Seq? ==> out == Concat(SeqLines(v.items, lib))
  {
    match v
    case Null => ""
    case Str(s) => s
    case Int(i) => IntToString(i)
    case Float(f) => TrimFloat(lib.formatFixed(f))
    case Bool(b) => if b then "true" else "false"
    case Map(m) => Concat(MapLines(m, keyOrder, lib))
    case Seq(items) => Concat(SeqLines(items, lib))
  }

  /** However Go happens to iterate over a map, its text is the same. */
  lemma {:induction false} RenderMapOrderIndependent(m: map<string, Value>, o1: seq<string>, o2: seq<string>, lib: Routines)
    requires EnumeratesKeys(o1, m) && EnumeratesKeys(o2, m)
    ensures RenderText(Map(m), o1, lib) == RenderText(Map(m), o2, lib)
  {
    MapLinesOrderIndependent(m, o1, o2, lib);
  }

  /** The text of a map has exactly one line per key. */
  lemma RenderMapLineCount(m: map<string, Value>, order: seq<string>, lib: Routines)
    requires EnumeratesKeys(order, m)
    requires EscapeKeepsLines(lib)
    ensures CountChar(RenderText(Map(m), order, lib), '\n') == |m|
  {
    MapLinesAreLines(m, order, lib);
    ConcatLinesCount(MapLines(m, order, lib));
  }

  lemma MapLinesAreLines(m: map<string, Value>, order: seq<string>, lib: Routines)
    requires EnumeratesKeys(order, m)
    requires EscapeKeepsLines(lib)
    ensures forall i :: 0 <= i < |MapLines(m, order, lib)| ==> IsLine(MapLines(m, order, lib)[i])
  {
    KeyLinesAreLines(m, lib, MapLines(m, order, lib));
  }

  lemma {:induction false} KeyLinesAreLines(m: map<string, Value>, lib: Routines, lines: seq<string>)
    requires EscapeKeepsLines(lib)
    requires forall i :: 0 <= i < |lines| ==> IsKeyLine(m, lib, lines[i])
    ensures forall i :: 0 <= i < |lines| ==> IsLine(lines[i])
  {
    forall i | 0 <= i < |lines|
      ensures IsLine(lines[i])
    {
      assert IsKeyLine(m, lib, lines[i]);
      var k :| k in m && lines[i] == MapLine(k, m[k], lib);
      MapLineIsLine(k, m[k], lib);
    }
  }

  /** A sequence renders as one line per element, in index order. */
  lemma {:induction false} RenderSeqText(items: seq<Value>, keyOrder: seq<string>, lib: Routines)
    requires forall i :: 0 <= i < |items| ==> NameIsString(items[i])
    requires EscapeKeepsLines(lib)
    ensures RenderText(Seq(items), keyOrder, lib) == Concat(SeqLines(items, lib))
    ensures CountChar(RenderText(Seq(items), keyOrder, lib), '\n') == |items|
  {
    var lines := SeqLines(items, lib);
    forall i | 0 <= i < |lines|
      ensures IsLine(lines[i])
    {
      SeqLineIsLine(i, items[i], lib);
    }
    ConcatLinesCount(lines);
  }
}
