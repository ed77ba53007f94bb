/** Worked instances of the record parser and of int() on concrete text. */
module Samples {
  import opened Text
  import opened Numbers
  import opened SensorRecord

  /** A lone '#' is rejected. */
  lemma SampleLoneDelimiter()
    ensures ParseSensorData("#") == None
  {
    RejectsWrongFieldCount("#");
  }

  /** An empty record is rejected. */
  lemma SampleEmptyRecord()
    ensures ParseSensorData("##") == None
  {
    RejectsWrongFieldCount("##");
  }

  /** A record of four fields is rejected. */
  lemma SampleFourFields()
    ensures ParseSensorData("#1,2,3,4#") == None
  {
    RejectsWrongFieldCount("#1,2,3,4#");
  }

  /** int("12"): the PM2.5 field of the record "#23.5,45.0,12,450,1,5,8#". */
  lemma SamplePm25()
    ensures ParseInt("12") == Some(12)
  {
    assert DigitsValue("12") == 12 by {
      assert "12"[..1] == "1" && "1"[..0] == "";
      assert DigitsValue("1") == 1;
    }
    ParseIntPlain("", "12");
    assert "" + "12" == "12";
  }

  /** int("450"): the CO2 field of that record. */
  lemma SampleCo2()
    ensures ParseInt("450") == Some(450)
  {
    assert DigitsValue("450") == 450 by {
      assert "450"[..2] == "45" && "45"[..1] == "4" && "4"[..0] == "";
      assert DigitsValue("4") == 4;
      assert DigitsValue("45") == 45;
    }
    ParseIntPlain("", "450");
    assert "" + "450" == "450";
  }

  /** int() of a one-digit field, such as the VOC code, PM1 and PM10 of that record. */
  lemma SampleDigit(d: char)
    requires IsDigit(d)
    ensures ParseInt([d]) == Some(d as int - '0' as int)
  {
    ParseIntPlain("", [d]);
    assert "" + [d] == [d];
  }

  /** A record whose seven fields all read the text of one natural number n
      parses, every value being n and the label that of code n. */
  lemma UniformRecordParses(n: nat)
    requires |NatString(n)| <= MAX_STR_DIGITS
    ensures var d := NatString(n);
      var s := [DELIMITER] + Join([d, d, d, d, d, d, d], FIELD_SEPARATOR) + [DELIMITER];
      ParseSensorData(s) == Some(SensorReading(Finite(false, n, 0), Finite(false, n, 0), n, n, n, VocLabel(n), n, n, s))
  {
    var d := NatString(n);
    var f := [d, d, d, d, d, d, d];
    DigitsLack(d, FIELD_SEPARATOR);
    assert forall i :: 0 <= i < |f| ==> f[i] == d;
    assert DecimalString(n) == d;
    ParseFloatDecimalString(n);
    ParseIntDecimalString(n);
    ParseSensorDataOfFields(f);
  }

  /** The parser accepts some record. */
  lemma ParserAcceptsSome()
    ensures exists s :: ParseSensorData(s).Some?
  {
    var d := NatString(1);
    UniformRecordParses(1);
    var s := [DELIMITER] + Join([d, d, d, d, d, d, d], FIELD_SEPARATOR) + [DELIMITER];
    assert ParseSensorData(s).Some?;
  }
}
