/** The column-type translator of `crear_tablas_snowflake`: a first-match-wins
    classification of the raw source type text by case-sensitive substring. */
module SchemaTranslator {
  import opened Model
  import opened Text

  /** The destination type of a source column type. Total: every text maps to
      one of the four destination types, `String` being the fallback. */
  function Translate(sourceType: string): DestType
  {
    if Contains(sourceType, "int") then Integer
    else if Contains(sourceType, "float") || Contains(sourceType, "double") then Float
    else if Contains(sourceType, "datetime") then Timestamp
    else String
  }

  /** One classification rule: any keyword present selects `target`. */
  datatype Rule = Rule(keywords: seq<string>, target: DestType)

  /** The rules in the order they are tried. */
  const Rules: seq<Rule> := [
    Rule(["int"], Integer),
    Rule(["float", "double"], Float),
    Rule(["datetime"], Timestamp)
  ]

  const Fallback: DestType := String

  predicate Fires(r: Rule, sourceType: string)
  {
    exists k :: k in r.keywords && Contains(sourceType, k)
  }

  /** A generic first-match-wins rule table: the target of the first rule with
      a keyword in the text, or the fallback when none fires. */
  function FirstMatch(rules: seq<Rule>, sourceType: string, fallback: DestType): (d: DestType)
    ensures d == fallback || exists i :: 0 <= i < |rules| && rules[i].target == d
  {
    if rules == [] then fallback
    else if Fires(rules[0], sourceType) then rules[0].target
    else FirstMatch(rules[1..], sourceType, fallback)
  }

  /** The translator is the rule table `Rules` read first-match-wins. */
  lemma TranslateIsFirstMatch(sourceType: string)
    ensures Translate(sourceType) == FirstMatch(Rules, sourceType, Fallback)
  {
    var r0, r1, r2 := Rules[0], Rules[1], Rules[2];
    assert Fires(r0, sourceType) <==> Contains(sourceType, "int") by {
      assert r0.keywords == ["int"];
    }
    assert Fires(r1, sourceType) <==> Contains(sourceType, "float") || Contains(sourceType, "double") by {
      assert r1.keywords == ["float", "double"];
      if Contains(sourceType, "float") { assert "float" in r1.keywords; }
      if Contains(sourceType, "double") { assert "double" in r1.keywords; }
    }
    assert Fires(r2, sourceType) <==> Contains(sourceType, "datetime") by {
      assert r2.keywords == ["datetime"];
    }
    assert Rules[1..] == [r1, r2] && [r1, r2][1..] == [r2] && [r2][1..] == [];
    assert FirstMatch([r2], sourceType, Fallback)
      == if Fires(r2, sourceType) then Timestamp else Fallback;
    assert FirstMatch([r1, r2], sourceType, Fallback)
      == if Fires(r1, sourceType) then Float else FirstMatch([r2], sourceType, Fallback);
    assert FirstMatch(Rules, sourceType, Fallback)
      == if Fires(r0, sourceType) then Integer else FirstMatch([r1, r2], sourceType, Fallback);
  }

  /** The four outcomes, each characterised by which keywords the text holds:
      "int" wins over everything, then "float"/"double", then "datetime". */
  lemma TranslateClassification(sourceType: string)
    ensures Translate(sourceType) == Integer <==> Contains(sourceType, "int")
    ensures Translate(sourceType) == Float <==>
      !Contains(sourceType, "int") && (Contains(sourceType, "float") || Contains(sourceType, "double"))
    ensures Translate(sourceType) == Timestamp <==>
      !Contains(sourceType, "int") && !Contains(sourceType, "float") && !Contains(sourceType, "double")
      && Contains(sourceType, "datetime")
    ensures Translate(sourceType) == String <==>
      !Contains(sourceType, "int") && !Contains(sourceType, "float") && !Contains(sourceType, "double")
      && !Contains(sourceType, "datetime")
  {
  }

  /** Any text holding "int" anywhere is an INTEGER column, whatever precedes
      or follows it (`bigint`, `tinyint(1)`, `int unsigned`, `datetime_int`). */
  lemma IntegerWhateverSurrounds(before: string, core: string, after: string)
    requires Contains(core, "int")
    ensures Translate(before + core + after) == Integer
  {
    ContainsInContext(before, core, after, "int");
  }

  /** Two type texts that agree on the four keywords translate alike: nothing
      else of the text (length, precision, sign) matters. */
  lemma TranslateDependsOnlyOnKeywords(a: string, b: string)
    requires Contains(a, "int") == Contains(b, "int")
    requires Contains(a, "float") == Contains(b, "float")
    requires Contains(a, "double") == Contains(b, "double")
    requires Contains(a, "datetime") == Contains(b, "datetime")
    ensures Translate(a) == Translate(b)
  {
  }

  /** An occurrence of "int" makes an INTEGER column. */
  lemma IntegerByOccurrence(sourceType: string, i: int)
    requires OccursAt(sourceType, "int", i)
    ensures Translate(sourceType) == Integer
  {
    ContainsIffOccurs(sourceType, "int");
  }

  /** An occurrence of "float" or "double", in a text with "int" at no
      position, makes a FLOAT column. */
  lemma FloatByOccurrence(sourceType: string, keyword: string, i: int)
    requires keyword == "float" || keyword == "double"
    requires OccursAt(sourceType, keyword, i)
    requires forall j :: !OccursAt(sourceType, "int", j)
    ensures Translate(sourceType) == Float
  {
    ContainsIffOccurs(sourceType, keyword);
    ContainsIffOccurs(sourceType, "int");
  }

  /** An occurrence of "datetime", in a text with none of the three earlier
      keywords at any position, makes a TIMESTAMP column. */
  lemma TimestampByOccurrence(sourceType: string, i: int)
    requires OccursAt(sourceType, "datetime", i)
    requires forall j :: !OccursAt(sourceType, "int", j)
    requires forall j :: !OccursAt(sourceType, "float", j)
    requires forall j :: !OccursAt(sourceType, "double", j)
    ensures Translate(sourceType) == Timestamp
  {
    ContainsIffOccurs(sourceType, "datetime");
    ContainsIffOccurs(sourceType, "int");
    ContainsIffOccurs(sourceType, "float");
    ContainsIffOccurs(sourceType, "double");
  }

  /** A text with none of the four keywords at any position makes a STRING
      column. */
  lemma StringByAbsence(sourceType: string)
    requires forall j :: !OccursAt(sourceType, "int", j)
    requires forall j :: !OccursAt(sourceType, "float", j)
    requires forall j :: !OccursAt(sourceType, "double", j)
    requires forall j :: !OccursAt(sourceType, "datetime", j)
    ensures Translate(sourceType) == String
  {
    ContainsIffOccurs(sourceType, "int");
    ContainsIffOccurs(sourceType, "float");
    ContainsIffOccurs(sourceType, "double");
    ContainsIffOccurs(sourceType, "datetime");
  }

  /** The integer family, qualifiers included, is INTEGER; the match is
      unanchored, so the spatial type `point` is INTEGER too. */
  lemma SampleIntegerTypes()
    ensures Translate("bigint") == Integer
    ensures Translate("tinyint(1)") == Integer
    ensures Translate("int(11) unsigned") == Integer
    ensures Translate("point") == Integer
  {
    IntegerByOccurrence("bigint", 3);
    IntegerByOccurrence("tinyint(1)", 4);
    IntegerByOccurrence("int(11) unsigned", 0);
    IntegerByOccurrence("point", 2);
  }

  /** `double` and `float(M,D)` are FLOAT. */
  lemma SampleFloatTypes()
    ensures Translate("double") == Float
    ensures Translate("float(7,4)") == Float
  {
    NoOccurrenceWithoutChar("double", "int", 'i');
    FloatByOccurrence("double", "double", 0);
    NoOccurrenceWithoutChar("float(7,4)", "int", 'i');
    FloatByOccurrence("float(7,4)", "float", 0);
  }

  /** `datetime` is TIMESTAMP. */
  lemma SampleDatetime()
    ensures Translate("datetime") == Timestamp
  {
    NoOccurrenceWithoutChar("datetime", "int", 'n');
    NoOccurrenceWithoutChar("datetime", "float", 'f');
    NoOccurrenceWithoutChar("datetime", "double", 'o');
    TimestampByOccurrence("datetime", 0);
  }

  /** Character types fall through to STRING. */
  lemma SampleVarchar()
    ensures Translate("varchar(255)") == String
  {
    NoOccurrenceWithoutChar("varchar(255)", "int", 'i');
    NoOccurrenceWithoutChar("varchar(255)", "float", 'f');
    NoOccurrenceWithoutChar("varchar(255)", "double", 'd');
    NoOccurrenceWithoutChar("varchar(255)", "datetime", 'd');
    StringByAbsence("varchar(255)");
  }

  /** The match is case-sensitive: `int` is INTEGER, upper-case `INT` is STRING. */
  lemma SampleCaseSensitive()
    ensures Translate("int") == Integer
    ensures Translate("INT") == String
  {
    IntegerByOccurrence("int", 0);
    NoOccurrenceWithoutChar("INT", "int", 'i');
    NoOccurrenceWithoutChar("INT", "float", 'f');
    NoOccurrenceWithoutChar("INT", "double", 'd');
    NoOccurrenceWithoutChar("INT", "datetime", 'd');
    StringByAbsence("INT");
  }

  /** Of the time types, `timestamp` and `date` hold none of the keywords
      and fall through to STRING. */
  lemma SampleOtherTimeTypes()
    ensures Translate("timestamp") == String
    ensures Translate("date") == String
  {
    NoOccurrenceWithoutChar("timestamp", "int", 'n');
    NoOccurrenceWithoutChar("timestamp", "float", 'f');
    NoOccurrenceWithoutChar("timestamp", "double", 'd');
    NoOccurrenceWithoutChar("timestamp", "datetime", 'd');
    StringByAbsence("timestamp");
    NoOccurrenceWithoutChar("date", "int", 'i');
    NoOccurrenceWithoutChar("date", "float", 'f');
    NoOccurrenceWithoutChar("date", "double", 'o');
    NoOccurrenceWithoutChar("date", "datetime", 'i');
    StringByAbsence("date");
  }

  /** Only contiguous keywords count: `tinytext` holds the letters of `int`
      but not the word, so it is STRING. */
  lemma SampleScatteredLetters()
    ensures Translate("tinytext") == String
  {
    forall j | 0 <= j && j + 3 <= |"tinytext"|
      ensures !OccursAt("tinytext", "int", j)
    {
      assert "tinytext"[j..j + 3][0] == "tinytext"[j];
      assert "tinytext"[j..j + 3][1] == "tinytext"[j + 1];
      assert "tinytext"[j..j + 3][2] == "tinytext"[j + 2];
    }
    NoOccurrenceWithoutChar("tinytext", "float", 'f');
    NoOccurrenceWithoutChar("tinytext", "double", 'd');
    NoOccurrenceWithoutChar("tinytext", "datetime", 'd');
    StringByAbsence("tinytext");
  }

  /** `float unsigned` is FLOAT. The text holds the letters `i`, `n` and `t`
      (the `t` from `float`), so no missing letter rules out `int`: it is
      ruled out position by position. */
  lemma SampleUnsignedFloat()
    ensures Translate("float unsigned") == Float
  {
    forall j | 0 <= j && j + 3 <= |"float unsigned"|
      ensures !OccursAt("float unsigned", "int", j)
    {
      assert "float unsigned"[j..j + 3][0] == "float unsigned"[j];
      assert "float unsigned"[j..j + 3][1] == "float unsigned"[j + 1];
      assert "float unsigned"[j..j + 3][2] == "float unsigned"[j + 2];
    }
    FloatByOccurrence("float unsigned", "float", 0);
  }

  /** `datetime fold` holds the letters of `float` scattered, and is TIMESTAMP. */
  lemma SampleDatetimeWithSuffix()
    ensures Translate("datetime fold") == Timestamp
  {
    NoOccurrenceWithoutChar("datetime fold", "int", 'n');
    forall j | 0 <= j && j + 5 <= |"datetime fold"|
      ensures !OccursAt("datetime fold", "float", j)
    {
      assert "datetime fold"[j..j + 5][1] == "datetime fold"[j + 1];
    }
    NoOccurrenceWithoutChar("datetime fold", "double", 'u');
    TimestampByOccurrence("datetime fold", 0);
  }
}
