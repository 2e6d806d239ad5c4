/**
  The text that `write_areas` and `write_dict` write out: one piece per
  area, `(label|TL:BR), `, and one per dictionary entry, `range,key|`, each
  piece closed by its separator, the last one included. Only the string
  building is modelled; the file is not.
 */
module Serialise {
  import opened Wrappers
  import opened Strings
  import opened Cells
  import opened ColumnLetters
  import opened Aggregation
  import opened InvertedIndex

  /** Index of the first `ch` in `s`, or `|s|` when there is none. */
  function Find(s: string, ch: char): (k: nat)
    ensures k <= |s| && (k < |s| ==> s[k] == ch)
    ensures forall i :: 0 <= i < k ==> s[i] != ch
  {
    if |s| == 0 || s[0] == ch then 0 else 1 + Find(s[1..], ch)
  }

  lemma FindAfter(a: string, ch: char, rest: string)
    requires ch !in a
    ensures Find(a + [ch] + rest, ch) == |a|
  {
    var s := a + [ch] + rest;
    assert s[|a|] == ch;
    assert forall i :: 0 <= i < |a| ==> s[i] == a[i];
  }

  /** The text before the first `ch` and the text after it, or `None` when `s` holds no `ch`. */
  function Field(s: string, ch: char): (r: Option<(string, string)>)
    ensures r.Some? ==> |r.value.1| < |s|
  {
    var k := Find(s, ch);
    if k == |s| then None else Some((s[..k], s[k + 1..]))
  }

  lemma FieldAfter(a: string, ch: char, rest: string)
    requires ch !in a
    ensures Field(a + [ch] + rest, ch) == Some((a, rest))
  {
    var s := a + [ch] + rest;
    FindAfter(a, ch, rest);
    assert s[..|a|] == a && s[|a| + 1..] == rest;
  }

  /** Column letters then row digits: no punctuation at all. */
  lemma AddressChars(row: nat, col: nat)
    ensures forall i :: 0 <= i < |Address(row, col)| ==> IsUpper(Address(row, col)[i]) || IsDigit(Address(row, col)[i])
  {
    var letters, digits := ColLetters(col + 1), NatToDecimal(row + 1);
    NatToDecimalShape(row + 1);
    forall i | 0 <= i < |letters + digits| ensures IsUpper((letters + digits)[i]) || IsDigit((letters + digits)[i]) {
      if i < |letters| {
        assert (letters + digits)[i] == letters[i];
      } else {
        assert (letters + digits)[i] == digits[i - |letters|];
      }
    }
  }

  // ---------------------------------------------------------------- areas

  /** Areas come out of the search inside the sheet, so every corner has an address. */
  predicate Placed(a: Area)
  {
    a.box.top >= 0 && a.box.left >= 0 && a.box.bottom >= 0 && a.box.right >= 0
  }

  /** One piece of `write_areas`: label, top-left address, bottom-right address. */
  function AreaText(a: Area): string
    requires Placed(a)
  {
    "(" + a.category + "|" + Address(a.box.top, a.box.left) + ":" + Address(a.box.bottom, a.box.right) + "), "
  }

  function AreasText(areas: seq<Area>): string
    requires forall i :: 0 <= i < |areas| ==> Placed(areas[i])
  {
    if |areas| == 0 then "" else AreaText(areas[0]) + AreasText(areas[1..])
  }

  lemma {:induction false} AreasTextAppend(areas: seq<Area>, a: Area)
    requires forall i :: 0 <= i < |areas| ==> Placed(areas[i])
    requires Placed(a)
    ensures AreasText(areas + [a]) == AreasText(areas) + AreaText(a)
    decreases |areas|
  {
    if |areas| == 0 {
      assert AreasText([a][1..]) == "";
    } else {
      assert (areas + [a])[1..] == areas[1..] + [a];
      AreasTextAppend(areas[1..], a);
    }
  }

  /** The string `write_areas` builds: one piece per area, appended in order. */
  method WriteAreas(areas: seq<Area>) returns (text: string)
    requires forall i :: 0 <= i < |areas| ==> Placed(areas[i])
    ensures text == AreasText(areas)
  {
    text := "";
    var i := 0;
    while i < |areas|
      invariant 0 <= i <= |areas|
      invariant text == AreasText(areas[..i])
    {
      AreasTextAppend(areas[..i], areas[i]);
      assert areas[..i + 1] == areas[..i] + [areas[i]];
      text := text + AreaText(areas[i]);
      i := i + 1;
    }
    assert areas[..|areas|] == areas;
  }

  /** Reads `TL:BR), ` off the front of `s`, with what follows it. */
  function ReadBox(s: string): (r: Option<(Box, string)>)
    ensures r.Some? ==> |r.value.1| < |s|
  {
    match Field(s, ':')
    case None => None
    case Some((first, w)) =>
      match Field(w, ')')
      case None => None
      case Some((last, x)) =>
        var tl, br := ParseAddress(first), ParseAddress(last);
        if tl.None? || br.None? || |x| < 2 || x[..2] != ", " then None
        else Some((Box(tl.value.0, tl.value.1, br.value.0, br.value.1), x[2..]))
  }

  /** Reads one area piece, `(label|TL:BR), `, off the front of `s`, with what follows it. */
  function ReadArea(s: string): (r: Option<(Area, string)>)
    ensures r.Some? ==> |r.value.1| < |s|
  {
    if |s| == 0 || s[0] != '(' then None
    else match Field(s[1..], '|')
      case None => None
      case Some((category, u)) =>
        match ReadBox(u)
        case None => None
        case Some((box, x)) => Some((Area(box, category), x))
  }

  function ReadAreas(s: string): Option<seq<Area>>
    decreases |s|
  {
    if |s| == 0 then Some([])
    else match ReadArea(s)
      case None => None
      case Some((a, rest)) =>
        match ReadAreas(rest)
        case None => None
        case Some(more) => Some([a] + more)
  }

  lemma ReadBoxText(b: Box, rest: string)
    requires b.top >= 0 && b.left >= 0 && b.bottom >= 0 && b.right >= 0
    ensures ReadBox(Address(b.top, b.left) + ":" + Address(b.bottom, b.right) + "), " + rest) == Some((b, rest))
  {
    var tl, br := Address(b.top, b.left), Address(b.bottom, b.right);
    AddressChars(b.top, b.left);
    AddressChars(b.bottom, b.right);
    AddressRoundTrip(b.top, b.left);
    AddressRoundTrip(b.bottom, b.right);
    var x := ", " + rest;
    var w := br + [')'] + x;
    assert tl + ":" + br + "), " + rest == tl + [':'] + w;
    assert ':' !in tl;
    FieldAfter(tl, ':', w);
    assert ')' !in br;
    FieldAfter(br, ')', x);
    assert x[..2] == ", " && x[2..] == rest;
  }

  lemma ReadAreaText(a: Area, rest: string)
    requires Placed(a) && '|' !in a.category
    ensures ReadArea(AreaText(a) + rest) == Some((a, rest))
  {
    var u := Address(a.box.top, a.box.left) + ":" + Address(a.box.bottom, a.box.right) + "), " + rest;
    assert AreaText(a) + rest == "(" + (a.category + ['|'] + u);
    FieldAfter(a.category, '|', u);
    ReadBoxText(a.box, rest);
  }

  /** The text of areas whose labels hold no `|` reads back as those areas. */
  lemma {:induction false} AreasRoundTrip(areas: seq<Area>)
    requires forall i :: 0 <= i < |areas| ==> Placed(areas[i]) && '|' !in areas[i].category
    ensures ReadAreas(AreasText(areas)) == Some(areas)
    decreases |areas|
  {
    if |areas| > 0 {
      var a, rest := areas[0], AreasText(areas[1..]);
      assert AreasText(areas) == AreaText(a) + rest;
      ReadAreaText(a, rest);
      AreasRoundTrip(areas[1..]);
      assert ReadAreas(AreaText(a) + rest) == Some([a] + areas[1..]);
      assert [a] + areas[1..] == areas;
    }
  }

  // ---------------------------------------------------------------- dictionary

  /** One piece of `write_dict`: `str(value) + ',' + str(key) + '|'`. */
  function EntryText(e: Entry): string
  {
    e.range + "," + Str(e.key) + "|"
  }

  function DictText(entries: seq<Entry>): string
  {
    if |entries| == 0 then "" else EntryText(entries[0]) + DictText(entries[1..])
  }

  lemma {:induction false} DictTextAppend(entries: seq<Entry>, e: Entry)
    ensures DictText(entries + [e]) == DictText(entries) + EntryText(e)
    decreases |entries|
  {
    if |entries| == 0 {
      assert DictText([e][1..]) == "";
    } else {
      assert (entries + [e])[1..] == entries[1..] + [e];
      DictTextAppend(entries[1..], e);
    }
  }

  /** The string `write_dict` builds: one piece per entry, in the dictionary's order. */
  method WriteDict(entries: seq<Entry>) returns (text: string)
    ensures text == DictText(entries)
  {
    text := "";
    var i := 0;
    while i < |entries|
      invariant 0 <= i <= |entries|
      invariant text == DictText(entries[..i])
    {
      DictTextAppend(entries[..i], entries[i]);
      assert entries[..i + 1] == entries[..i] + [entries[i]];
      text := text + EntryText(entries[i]);
      i := i + 1;
    }
    assert entries[..|entries|] == entries;
  }

  /** Reads one `range,key|` piece off the front of `s`, with what follows it. */
  function ReadEntry(s: string): (r: Option<((string, string), string)>)
    ensures r.Some? ==> |r.value.1| < |s|
  {
    match Field(s, ',')
    case None => None
    case Some((range, t)) =>
      match Field(t, '|')
      case None => None
      case Some((key, rest)) => Some(((range, key), rest))
  }

  /** Reads `range,key|` pieces back as (range, key text) pairs. */
  function ReadDict(s: string): Option<seq<(string, string)>>
    decreases |s|
  {
    if |s| == 0 then Some([])
    else match ReadEntry(s)
      case None => None
      case Some((pair, rest)) =>
        match ReadDict(rest)
        case None => None
        case Some(more) => Some([pair] + more)
  }

  lemma ReadEntryText(e: Entry, rest: string)
    requires ',' !in e.range && '|' !in Str(e.key)
    ensures ReadEntry(EntryText(e) + rest) == Some(((e.range, Str(e.key)), rest))
  {
    var t := Str(e.key) + ['|'] + rest;
    assert EntryText(e) + rest == e.range + [','] + t;
    FieldAfter(e.range, ',', t);
    FieldAfter(Str(e.key), '|', rest);
  }

  /** What `write_dict` shows of each entry, in order: its range and the printed key. */
  function Printed(entries: seq<Entry>): seq<(string, string)>
  {
    if |entries| == 0 then [] else [(entries[0].range, Str(entries[0].key))] + Printed(entries[1..])
  }

  /** Printed this way, a dictionary whose ranges hold no `,` and whose keys print without `|` reads back in full. */
  lemma {:induction false} DictRoundTrip(entries: seq<Entry>)
    requires forall i :: 0 <= i < |entries| ==> ',' !in entries[i].range && '|' !in Str(entries[i].key)
    ensures ReadDict(DictText(entries)) == Some(Printed(entries))
    decreases |entries|
  {
    if |entries| > 0 {
      var e, rest := entries[0], DictText(entries[1..]);
      assert DictText(entries) == EntryText(e) + rest;
      ReadEntryText(e, rest);
      DictRoundTrip(entries[1..]);
      assert ReadDict(EntryText(e) + rest) == Some([(e.range, Str(e.key))] + Printed(entries[1..]));
    }
  }
}
