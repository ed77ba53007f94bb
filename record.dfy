/** The sensor record parser: one '#'-delimited text record holding seven
    comma-separated fields (temperature, humidity, PM2.5, CO2, VOC code,
    PM1, PM10) becomes a reading, or nothing when it is malformed. */
module SensorRecord {
  import opened Text
  import opened Numbers

  const DELIMITER: char := '#'
  const FIELD_SEPARATOR: char := ','
  const FIELD_COUNT: nat := 7

  /** A successfully parsed record. Temperature and humidity are the exact
      decimals their text spells; the rest are integers. */
  datatype SensorReading = SensorReading(
    temperature: FloatValue,
    humidity: FloatValue,
    pm25: int,
    co2: int,
    vocRaw: int,
    vocQuality: string,
    pm1: int,
    pm10: int,
    rawString: string)

  /** The air-quality label for a VOC code: excellent, good, fair and poor
      for 1 to 4, otherwise "unknown" followed by the code in parentheses. */
  function VocLabel(code: int): (quality: string)
    ensures (1 <= code <= 4) <==> |quality| == 1
    ensures !(1 <= code <= 4) ==> |quality| >= 6 && quality[..4] == "未知 (" && quality[|quality| - 1] == ')'
  {
    if code == 1 then "优"
    else if code == 2 then "良"
    else if code == 3 then "中"
    else if code == 4 then "差"
    else "未知 (" + DecimalString(code) + ")"
  }

  /** An unknown code's label spells the code between the prefix and the closing parenthesis. */
  lemma UnknownLabelSpellsCode(code: int)
    requires !(1 <= code <= 4)
    ensures VocLabel(code)[4..|VocLabel(code)| - 1] == DecimalString(code)
  {
    var prefix, digits := "未知 (", DecimalString(code);
    assert VocLabel(code) == prefix + digits + ")";
    assert (prefix + digits + ")")[|prefix|..|prefix| + |digits|] == digits;
  }

  /** Distinct codes get distinct labels: the label determines the code. */
  lemma VocLabelInjective(a: int, b: int)
    requires VocLabel(a) == VocLabel(b)
    ensures a == b
  {
    if !(1 <= a <= 4) {
      assert !(1 <= b <= 4);
      UnknownLabelSpellsCode(a);
      UnknownLabelSpellsCode(b);
      DecimalStringInjective(a, b);
    }
  }

  /** An unknown code's label carries the code, in text that int() reads back. */
  lemma VocLabelCarriesCode(code: int)
    requires !(1 <= code <= 4)
    requires |NatString(if code < 0 then -code else code)| <= MAX_STR_DIGITS
    ensures ParseInt(VocLabel(code)[4..|VocLabel(code)| - 1]) == Some(code)
  {
    UnknownLabelSpellsCode(code);
    ParseIntDecimalString(code);
  }

  /** The text between the first and the last character (Python's s[1:-1]). */
  function Inner(s: string): string
  {
    if |s| >= 2 then s[1..|s| - 1] else ""
  }

  /** Parses one record. None when the text is not enclosed in '#', when
      the enclosed text does not split into exactly seven fields, or when a
      field does not convert (float for the first two, int for the rest). */
  function ParseSensorData(s: string): (r: Option<SensorReading>)
    ensures r.Some? ==> StartsWith(s, DELIMITER) && EndsWith(s, DELIMITER)
    ensures r.Some? ==> r.value.rawString == s && r.value.vocQuality == VocLabel(r.value.vocRaw)
  {
    if !StartsWith(s, DELIMITER) || !EndsWith(s, DELIMITER) then None
    else
      var parts := Split(Inner(s), FIELD_SEPARATOR);
      if |parts| != FIELD_COUNT then None
      else
        var temperature, humidity := ParseFloat(parts[0]), ParseFloat(parts[1]);
        var pm25, co2, vocRaw := ParseInt(parts[2]), ParseInt(parts[3]), ParseInt(parts[4]);
        var pm1, pm10 := ParseInt(parts[5]), ParseInt(parts[6]);
        if temperature.None? || humidity.None? || pm25.None? || co2.None? || vocRaw.None? || pm1.None? || pm10.None? then None
        else
          Some(SensorReading(temperature.value, humidity.value, pm25.value, co2.value, vocRaw.value,
                             VocLabel(vocRaw.value), pm1.value, pm10.value, s))
  }

  /** A record with other than six commas, hence other than seven fields, is rejected. */
  lemma RejectsWrongFieldCount(s: string)
    requires Count(s, FIELD_SEPARATOR) != FIELD_COUNT - 1
    ensures ParseSensorData(s) == None
  {
    if StartsWith(s, DELIMITER) && EndsWith(s, DELIMITER) {
      var inner := Inner(s);
      if |s| >= 2 {
        assert s == [s[0]] + inner + [s[|s| - 1]];
        CountAppend([s[0]] + inner, [s[|s| - 1]], FIELD_SEPARATOR);
        CountAppend([s[0]], inner, FIELD_SEPARATOR);
      } else {
        assert s == [s[0]];
      }
      SplitCount(inner, FIELD_SEPARATOR);
    }
  }

  /** Text that starts and ends with the delimiter is the delimiter, its inner text, and the delimiter. */
  lemma EnclosedText(s: string)
    requires |s| >= 2 && StartsWith(s, DELIMITER) && EndsWith(s, DELIMITER)
    ensures s == [DELIMITER] + Inner(s) + [DELIMITER]
  {
  }

  /** A parsed record is '#', seven comma-free fields joined by ',', and '#';
      each value of the reading is the conversion of its field. */
  lemma ParsedRecordFields(s: string)
    requires ParseSensorData(s).Some?
    ensures var f := Split(Inner(s), FIELD_SEPARATOR);
      var r := ParseSensorData(s).value;
      && |f| == FIELD_COUNT
      && (forall i :: 0 <= i < |f| ==> FIELD_SEPARATOR !in f[i])
      && s == [DELIMITER] + Join(f, FIELD_SEPARATOR) + [DELIMITER]
      && ParseFloat(f[0]) == Some(r.temperature) && ParseFloat(f[1]) == Some(r.humidity)
      && ParseInt(f[2]) == Some(r.pm25) && ParseInt(f[3]) == Some(r.co2)
      && ParseInt(f[4]) == Some(r.vocRaw) && ParseInt(f[5]) == Some(r.pm1)
      && ParseInt(f[6]) == Some(r.pm10)
  {
    var f := Split(Inner(s), FIELD_SEPARATOR);
    assert |f| == FIELD_COUNT;
    assert Split("", FIELD_SEPARATOR) == [""];
    assert |s| >= 2;
    EnclosedText(s);
    JoinSplit(Inner(s), FIELD_SEPARATOR);
  }

  /** Conversely, any seven comma-free fields enclosed in '#' parse exactly
      when every field converts, into the reading made of their values. */
  lemma ParseSensorDataOfFields(f: seq<string>)
    requires |f| == FIELD_COUNT
    requires forall i :: 0 <= i < |f| ==> FIELD_SEPARATOR !in f[i]
    ensures var s := [DELIMITER] + Join(f, FIELD_SEPARATOR) + [DELIMITER];
      ParseSensorData(s) ==
        if ParseFloat(f[0]).Some? && ParseFloat(f[1]).Some? && ParseInt(f[2]).Some?
           && ParseInt(f[3]).Some? && ParseInt(f[4]).Some? && ParseInt(f[5]).Some? && ParseInt(f[6]).Some?
        then Some(SensorReading(ParseFloat(f[0]).value, ParseFloat(f[1]).value, ParseInt(f[2]).value,
                                ParseInt(f[3]).value, ParseInt(f[4]).value, VocLabel(ParseInt(f[4]).value),
                                ParseInt(f[5]).value, ParseInt(f[6]).value, s))
        else None
  {
    var s := [DELIMITER] + Join(f, FIELD_SEPARATOR) + [DELIMITER];
    assert Inner(s) == Join(f, FIELD_SEPARATOR);
    SplitJoin(f, FIELD_SEPARATOR);
  }
}
