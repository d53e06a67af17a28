/** `extract_terms`: eight bill fields, each taken from the text by its own pattern. */
module Terms {
  import opened Wrappers
  import opened LabelMatch

  /** The pattern table, keyed by output field name. */
  const Patterns: map<string, Pattern> := map[
    "supply_address" := Pattern("Supply Address:", NotNewline, NoTail),
    "tariff_name" := Pattern("Tariff Name", NotNewline, NoTail),
    "energy_used" := Pattern("Energy Used", Numeric, SpacedLiteral("kWh")),
    "unit_rate" := Pattern("Unit Rate", Numeric, SpacedLiteral("p/kWh")),
    "standing_charge" := Pattern("Standing Charge", Numeric, Literal("p/day")),
    "subtotal_before_vat" := Pattern("Subtotal of charges before VAT", Numeric, NoTail),
    "vat" := Pattern("VAT @", Numeric, Literal("%")),
    "total_charges" := Pattern("Total Electricity Charges", Numeric, NoTail)
  ]

  /** The six fields whose group is `[\d,\.]+`. */
  const NumericFields: set<string> :=
    {"energy_used", "unit_rate", "standing_charge", "subtotal_before_vat", "vat", "total_charges"}

  /**
   * The extracted terms: one entry per pattern, holding the group of the
   * first match of that pattern alone, or `None` when it matches nowhere.
   */
  function ExtractTerms(text: string): (r: map<string, Option<string>>)
    ensures r.Keys == Patterns.Keys
    ensures forall key :: key in r ==> r[key] == Search(text, Patterns[key])
    ensures forall key :: key in r ==> (r[key].None? <==> forall i: nat :: !MatchesAt(text, Patterns[key], i))
    ensures forall key :: key in r && r[key].Some? ==> SearchFinds(text, Patterns[key], r[key].value)
  {
    map key | key in Patterns :: Search(text, Patterns[key])
  }

  /** Whatever the text, the result has exactly eight keys. */
  lemma EightKeys(text: string)
    ensures |ExtractTerms(text).Keys| == 8
  {
    PatternCount();
  }

  /** The pattern table has eight distinct keys. */
  lemma PatternCount()
    ensures |Patterns.Keys| == 8
  {
    var names := {"supply_address", "tariff_name", "energy_used", "unit_rate",
                  "standing_charge", "subtotal_before_vat", "vat", "total_charges"};
    assert |names| == 8;
    assert Patterns.Keys == names;
  }

  /** A numeric field, when present, is a non-empty run of digits, commas and dots. */
  lemma NumericFieldsAreNumeric(text: string, key: string)
    requires key in NumericFields
    ensures key in ExtractTerms(text)
    ensures ExtractTerms(text)[key].Some? ==>
      var v := ExtractTerms(text)[key].value;
      |v| >= 1 && forall q :: 0 <= q < |v| ==> ('0' <= v[q] <= '9') || v[q] == ',' || v[q] == '.'
  {
    assert Patterns[key].cls == Numeric;
  }

  /** A text with none of the eight labels yields `None` for every field. */
  lemma NoLabelsNoTerms(text: string)
    requires forall key, i: nat :: key in Patterns ==> !LiteralAt(text, i, Patterns[key].labelText)
    ensures forall key :: key in ExtractTerms(text) ==> ExtractTerms(text)[key] == None
  {
    forall key | key in Patterns ensures Search(text, Patterns[key]) == None {
      NoLabelNoMatch(text, Patterns[key]);
    }
  }

  lemma EnergyUsedPattern()
    ensures "energy_used" in Patterns && Patterns["energy_used"] == Pattern("Energy Used", Numeric, SpacedLiteral("kWh"))
  {
  }

  /** At the start of "Energy Used 123.45 kWh", the engine matches the group "123.45" and the tail " kWh". */
  lemma EnergyUsedMatchAtStart(s: string)
    requires |s| >= 22 && s[..22] == "Energy Used 123.45 kWh"
    ensures BestAt(s, Pattern("Energy Used", Numeric, SpacedLiteral("kWh")), 0) == Some((12, 18, 19))
  {
    var p := Pattern("Energy Used", Numeric, SpacedLiteral("kWh"));
    assert s[..11] == "Energy Used" by { assert s[..11] == s[..22][..11]; }
    assert LiteralAt(s, 0, p.labelText);
    assert s[11] == s[..22][11] == ' ';
    assert s[12] == s[..22][12] == '1' && s[13] == s[..22][13] == '2' && s[14] == s[..22][14] == '3';
    assert s[15] == s[..22][15] == '.' && s[16] == s[..22][16] == '4' && s[17] == s[..22][17] == '5';
    assert s[18] == s[..22][18] == ' ' && s[19] == s[..22][19] == 'k';
    assert SpaceEnd(s, 12) == 12;
    assert SpaceEnd(s, 11) == 12;
    assert ClassEnd(s, 18, Numeric) == 18;
    assert ClassEnd(s, 12, Numeric) == 18;
    assert SpaceEnd(s, 19) == 19;
    assert SpaceEnd(s, 18) == 19;
    assert s[19..22] == "kWh" by { assert s[19..22] == s[..22][19..22]; }
    assert LiteralAt(s, 19, "kWh");
    assert BestTail(s, p.tail, 18) == Some(19);
    assert BestGroup(s, p, 12) == Some((18, 19));
  }

  lemma EnergyUsedSearch(s: string)
    requires |s| >= 22 && s[..22] == "Energy Used 123.45 kWh"
    ensures Search(s, Pattern("Energy Used", Numeric, SpacedLiteral("kWh"))) == Some("123.45")
  {
    var p := Pattern("Energy Used", Numeric, SpacedLiteral("kWh"));
    EnergyUsedMatchAtStart(s);
    assert s[12..18] == "123.45" by { assert s[12..18] == s[..22][12..18]; }
    assert SearchFrom(s, p, 0) == Some("123.45");
  }

  /** "Energy Used 123.45 kWh" at the start of the text gives `energy_used = "123.45"`. */
  lemma EnergyUsedExample(rest: string)
    ensures ExtractTerms("Energy Used 123.45 kWh" + rest)["energy_used"] == Some("123.45")
  {
    var s := "Energy Used 123.45 kWh" + rest;
    assert s[..22] == "Energy Used 123.45 kWh";
    EnergyUsedSearch(s);
    EnergyUsedPattern();
  }
}
