/**
  Unifying GDP data with plot country codes: the code table is projected to a
  plot-code -> data-code converter, plot codes are joined through it onto the
  GDP table's keys case-insensitively, and the joined codes are split by
  whether the GDP table has a figure for the chosen year.

  The CSV tables come in already parsed, as maps from a row's key field to the
  row (a map from column name to field text). These maps carry no order, so the
  CSV row order that decides which of two keys folding to the same lower-case
  code wins is not modelled: the contracts hold whichever one wins.
 */
module CountryCodes {
  import opened Strings

  type Code = string

  /** One parsed CSV row: column name to field text. */
  type Row = map<string, string>

  // ---------------------------------------------------------------------------
  // build_country_code_converter
  // ---------------------------------------------------------------------------

  /** The plot-code -> data-code converter: each row of the code table reduced to its data-code column. */
  method BuildCountryCodeConverter(codeTable: map<Code, Row>, dataCodes: string) returns (newDict: map<Code, Code>)
    requires forall key :: key in codeTable ==> dataCodes in codeTable[key]
    ensures newDict.Keys == codeTable.Keys
    ensures forall key :: key in newDict ==> newDict[key] == codeTable[key][dataCodes]
  {
    newDict := map[];
    var remaining := codeTable.Keys;
    while remaining != {}
      invariant remaining <= codeTable.Keys
      invariant newDict.Keys == codeTable.Keys - remaining
      invariant forall key :: key in newDict ==> newDict[key] == codeTable[key][dataCodes]
      decreases remaining
    {
      var key :| key in remaining;
      newDict := newDict[key := codeTable[key][dataCodes]];
      remaining := remaining - {key};
    }
  }

  // ---------------------------------------------------------------------------
  // The case-folded tables of reconcile_countries_by_code
  // ---------------------------------------------------------------------------

  /**
    convertedLower folds the entries of converted whose keys are in done: every
    such key has its lower-case form as a key, and every entry is the lower-case
    form of an entry of converted whose key folds to it.
   */
  ghost predicate FoldsConverterOn(done: set<Code>, converted: map<Code, Code>, convertedLower: map<Code, Code>)
  {
    && (forall key :: key in done && key in converted ==> Lower(key) in convertedLower)
    && (forall lowKey :: lowKey in convertedLower ==>
          exists key :: key in done && key in converted && Lower(key) == lowKey
                        && convertedLower[lowKey] == Lower(converted[key]))
  }

  /** Folding one more entry keeps the fold. */
  lemma FoldsConverterStep(done: set<Code>, converted: map<Code, Code>, convertedLower: map<Code, Code>, key: Code)
    requires FoldsConverterOn(done, converted, convertedLower)
    requires key in converted
    ensures FoldsConverterOn(done + {key}, converted, convertedLower[Lower(key) := Lower(converted[key])])
  {
    var next := convertedLower[Lower(key) := Lower(converted[key])];
    forall lowKey | lowKey in next
      ensures exists k :: k in done + {key} && k in converted && Lower(k) == lowKey && next[lowKey] == Lower(converted[k])
    {
      if lowKey != Lower(key) {
        var k :| k in done && k in converted && Lower(k) == lowKey && convertedLower[lowKey] == Lower(converted[k]);
        assert k in done + {key};
      } else {
        assert key in done + {key};
      }
    }
  }

  ghost predicate FoldsConverter(converted: map<Code, Code>, convertedLower: map<Code, Code>)
  {
    FoldsConverterOn(converted.Keys, converted, convertedLower)
  }

  /**
    gdpLower maps the lower-case form of every key in keys back to a key of
    keys that folds to it.
   */
  ghost predicate FoldsKeys(keys: set<Code>, gdpLower: map<Code, Code>)
  {
    && (forall key :: key in keys ==> Lower(key) in gdpLower)
    && (forall lowKey :: lowKey in gdpLower ==> gdpLower[lowKey] in keys && Lower(gdpLower[lowKey]) == lowKey)
  }

  /** Plot code c joins: its folded form is a converter key whose folded data code is a folded GDP key. */
  ghost predicate Matched(c: Code, convertedLower: map<Code, Code>, gdpLower: map<Code, Code>)
  {
    Lower(c) in convertedLower && convertedLower[Lower(c)] in gdpLower
  }

  // ---------------------------------------------------------------------------
  // reconcile_countries_by_code
  // ---------------------------------------------------------------------------

  /** The first loop of reconcile_countries_by_code: the converter with keys and values folded to lower case. */
  method LowerConverter(converted: map<Code, Code>) returns (convertedLower: map<Code, Code>)
    ensures FoldsConverter(converted, convertedLower)
  {
    convertedLower := map[];
    var todo := converted.Keys;
    while todo != {}
      invariant todo <= converted.Keys
      invariant FoldsConverterOn(converted.Keys - todo, converted, convertedLower)
      decreases todo
    {
      var key :| key in todo;
      FoldsConverterStep(converted.Keys - todo, converted, convertedLower, key);
      assert converted.Keys - (todo - {key}) == (converted.Keys - todo) + {key};
      convertedLower := convertedLower[Lower(key) := Lower(converted[key])];
      todo := todo - {key};
    }
  }

  /** The second loop of reconcile_countries_by_code: each folded GDP key mapped back to a GDP key. */
  method LowerGdpKeys(gdpKeys: set<Code>) returns (gdpLower: map<Code, Code>)
    ensures FoldsKeys(gdpKeys, gdpLower)
  {
    gdpLower := map[];
    var todo := gdpKeys;
    while todo != {}
      invariant todo <= gdpKeys
      invariant FoldsKeys(gdpKeys - todo, gdpLower)
      decreases todo
    {
      var key :| key in todo;
      gdpLower := gdpLower[Lower(key) := key];
      todo := todo - {key};
    }
  }

  /**
    Joins the plot codes through the converter onto the GDP keys, comparing
    case-insensitively and returning codes in their original case: output maps
    each joined plot code to its GDP key, missing holds the plot codes that do
    not join. The ghost results are the two case-folded tables the join used.
   */
  method ReconcileCountriesByCode<N, V>(converted: map<Code, Code>, plotCountries: map<Code, N>, gdpCountries: map<Code, V>)
    returns (output: map<Code, Code>, missing: set<Code>,
             ghost convertedLower: map<Code, Code>, ghost gdpLower: map<Code, Code>)
    ensures FoldsConverter(converted, convertedLower)
    ensures FoldsKeys(gdpCountries.Keys, gdpLower)
    ensures output.Keys !! missing
    ensures output.Keys + missing == plotCountries.Keys
    ensures forall c :: c in output <==> c in plotCountries && Matched(c, convertedLower, gdpLower)
    ensures forall c :: c in missing <==> c in plotCountries && !Matched(c, convertedLower, gdpLower)
    ensures forall c :: c in output ==>
      Matched(c, convertedLower, gdpLower) && output[c] == gdpLower[convertedLower[Lower(c)]] && output[c] in gdpCountries
  {
    var lowConverted := LowerConverter(converted);
    var lowGdp := LowerGdpKeys(gdpCountries.Keys);
    convertedLower, gdpLower := lowConverted, lowGdp;

    output := map[];
    missing := {};
    var plotTodo := plotCountries.Keys;
    ghost var plotDone: set<Code> := {};
    while plotTodo != {}
      invariant plotTodo <= plotCountries.Keys
      invariant plotDone == plotCountries.Keys - plotTodo
      invariant output.Keys !! missing
      invariant output.Keys + missing == plotDone
      invariant forall c :: c in output ==> Matched(c, convertedLower, gdpLower) && output[c] == gdpLower[convertedLower[Lower(c)]]
      invariant forall c :: c in missing ==> !Matched(c, convertedLower, gdpLower)
      decreases plotTodo
    {
      var code :| code in plotTodo;
      if Lower(code) in lowConverted && lowConverted[Lower(code)] in lowGdp {
        output := output[code := lowGdp[lowConverted[Lower(code)]]];
      } else {
        missing := missing + {code};
      }
      plotTodo := plotTodo - {code};
      plotDone := plotDone + {code};
    }
  }

  // ---------------------------------------------------------------------------
  // The join in terms of the input tables alone
  // ---------------------------------------------------------------------------

  /** Plot code c reaches GDP key g: some converter key folds to c's folded form and its data code folds to g's. */
  ghost predicate JoinsThrough(converted: map<Code, Code>, gdpKeys: set<Code>, c: Code, g: Code)
  {
    g in gdpKeys && exists key :: key in converted && Lower(key) == Lower(c) && Lower(converted[key]) == Lower(g)
  }

  /** No two keys differ only in case. */
  ghost predicate CaseUnique(keys: set<Code>)
  {
    forall a, b :: a in keys && b in keys && Lower(a) == Lower(b) ==> a == b
  }

  /** Whichever colliding key won the folding, a joined code reaches the GDP key it was given. */
  lemma MatchedJoins(converted: map<Code, Code>, gdpKeys: set<Code>,
                     convertedLower: map<Code, Code>, gdpLower: map<Code, Code>, c: Code)
    requires FoldsConverter(converted, convertedLower) && FoldsKeys(gdpKeys, gdpLower)
    requires Matched(c, convertedLower, gdpLower)
    ensures JoinsThrough(converted, gdpKeys, c, gdpLower[convertedLower[Lower(c)]])
  {
    var key :| key in converted && Lower(key) == Lower(c) && convertedLower[Lower(c)] == Lower(converted[key]);
    var g := gdpLower[convertedLower[Lower(c)]];
    assert Lower(g) == Lower(converted[key]);
  }

  /**
    When the converter's plot codes differ in more than case, a plot code that
    reaches some GDP key is joined, and when the GDP keys also differ in more
    than case, it is joined to that very key.
   */
  lemma JoinsThroughMatched(converted: map<Code, Code>, gdpKeys: set<Code>,
                            convertedLower: map<Code, Code>, gdpLower: map<Code, Code>, c: Code, g: Code)
    requires FoldsConverter(converted, convertedLower) && FoldsKeys(gdpKeys, gdpLower)
    requires CaseUnique(converted.Keys)
    requires JoinsThrough(converted, gdpKeys, c, g)
    ensures Matched(c, convertedLower, gdpLower)
    ensures CaseUnique(gdpKeys) ==> gdpLower[convertedLower[Lower(c)]] == g
  {
    var key :| key in converted && Lower(key) == Lower(c) && Lower(converted[key]) == Lower(g);
    assert Lower(key) in convertedLower;
    var other :| other in converted && Lower(other) == Lower(c)
                 && convertedLower[Lower(c)] == Lower(converted[other]);
    assert other == key;
    assert Lower(g) in gdpLower;
    if CaseUnique(gdpKeys) {
      var h := gdpLower[Lower(g)];
      assert h in gdpKeys && Lower(h) == Lower(g);
    }
  }

  // ---------------------------------------------------------------------------
  // build_map_dict_by_code
  // ---------------------------------------------------------------------------

  /**
    Splits the plot codes three ways: not joined to the GDP table
    (missingCountryCode), joined but with an empty field for the year
    (missingGdpValues), and joined with a figure, which countryCodeGdpYear maps
    to the field's text. The ghost results are the folded tables of the join.
   */
  method BuildMapDictByCode<N>(gdpData: map<Code, Row>, converted: map<Code, Code>, plotCountries: map<Code, N>, year: string)
    returns (countryCodeGdpYear: map<Code, string>, missingCountryCode: set<Code>, missingGdpValues: set<Code>,
             ghost convertedLower: map<Code, Code>, ghost gdpLower: map<Code, Code>)
    requires forall c, g :: c in plotCountries && JoinsThrough(converted, gdpData.Keys, c, g) ==> year in gdpData[g]
    ensures FoldsConverter(converted, convertedLower)
    ensures FoldsKeys(gdpData.Keys, gdpLower)
    ensures forall c :: c in plotCountries && Matched(c, convertedLower, gdpLower) ==>
      gdpLower[convertedLower[Lower(c)]] in gdpData && year in gdpData[gdpLower[convertedLower[Lower(c)]]]
    ensures missingCountryCode !! missingGdpValues && missingCountryCode !! countryCodeGdpYear.Keys
    ensures missingGdpValues !! countryCodeGdpYear.Keys
    ensures missingCountryCode + missingGdpValues + countryCodeGdpYear.Keys == plotCountries.Keys
    ensures forall c :: c in missingCountryCode <==> c in plotCountries && !Matched(c, convertedLower, gdpLower)
    ensures forall c :: c in missingGdpValues <==>
      c in plotCountries && Matched(c, convertedLower, gdpLower) && gdpData[gdpLower[convertedLower[Lower(c)]]][year] == ""
    ensures forall c :: c in countryCodeGdpYear <==>
      c in plotCountries && Matched(c, convertedLower, gdpLower) && gdpData[gdpLower[convertedLower[Lower(c)]]][year] != ""
    ensures forall c :: c in countryCodeGdpYear ==>
      Matched(c, convertedLower, gdpLower) && countryCodeGdpYear[c] == gdpData[gdpLower[convertedLower[Lower(c)]]][year]
  {
    var reconciled, missing;
    reconciled, missing, convertedLower, gdpLower := ReconcileCountriesByCode(converted, plotCountries, gdpData);
    forall c | c in plotCountries && Matched(c, convertedLower, gdpLower)
      ensures gdpLower[convertedLower[Lower(c)]] in gdpData && year in gdpData[gdpLower[convertedLower[Lower(c)]]]
    {
      MatchedJoins(converted, gdpData.Keys, convertedLower, gdpLower, c);
    }
    countryCodeGdpYear, missingCountryCode, missingGdpValues := SplitByYear(gdpData, reconciled, missing, year);
  }

  /**
    The loop of build_map_dict_by_code over the joined codes: the not-joined
    set passes through unchanged, and each joined code goes to missingGdpValues
    when its GDP row has an empty field for the year, otherwise into
    countryCodeGdpYear with that field's text.
   */
  method SplitByYear(gdpData: map<Code, Row>, reconciled: map<Code, Code>, missing: set<Code>, year: string)
    returns (countryCodeGdpYear: map<Code, string>, missingCountryCode: set<Code>, missingGdpValues: set<Code>)
    requires forall c :: c in reconciled ==> reconciled[c] in gdpData && year in gdpData[reconciled[c]]
    ensures missingCountryCode == missing
    ensures missingGdpValues !! countryCodeGdpYear.Keys
    ensures missingGdpValues + countryCodeGdpYear.Keys == reconciled.Keys
    ensures forall c :: c in missingGdpValues <==> c in reconciled && gdpData[reconciled[c]][year] == ""
    ensures forall c :: c in countryCodeGdpYear ==> countryCodeGdpYear[c] == gdpData[reconciled[c]][year] && gdpData[reconciled[c]][year] != ""
  {
    missingCountryCode := missing;
    missingGdpValues := {};
    countryCodeGdpYear := map[];

    var todo := reconciled.Keys;
    ghost var done: set<Code> := {};
    while todo != {}
      invariant todo <= reconciled.Keys
      invariant done == reconciled.Keys - todo
      invariant missingGdpValues !! countryCodeGdpYear.Keys
      invariant missingGdpValues + countryCodeGdpYear.Keys == done
      invariant forall c :: c in missingGdpValues ==> gdpData[reconciled[c]][year] == ""
      invariant forall c :: c in countryCodeGdpYear ==> countryCodeGdpYear[c] == gdpData[reconciled[c]][year] && gdpData[reconciled[c]][year] != ""
      decreases todo
    {
      var countryCode :| countryCode in todo;
      if gdpData[reconciled[countryCode]][year] == "" {
        missingGdpValues := missingGdpValues + {countryCode};
      } else {
        countryCodeGdpYear := countryCodeGdpYear[countryCode := gdpData[reconciled[countryCode]][year]];
      }
      todo := todo - {countryCode};
      done := done + {countryCode};
    }
  }
}
