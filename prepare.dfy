/**
 * Preparing the quake table: the derived `country` column, computed row by
 * row from the combined `state_country` location string.
 */
module Prepare {
  import opened PyStr

  /** One row of the cleaned quake table, with the columns the dashboard reads. */
  datatype Quake = Quake(
    eventType: string,
    mag: real,
    depth: real,
    status: string,
    latitude: real,
    longitude: real,
    stateCountry: string)

  /** A row after preparation: the original row and the added `country` cell. */
  datatype PreparedQuake = PreparedQuake(quake: Quake, country: string)

  /** The per-row rule: with a comma, the text after the last comma, stripped;
      without one, the whole string, stripped. Whatever the input, the result
      holds no comma and starts and ends with a non-whitespace character
      (or is empty). */
  function Country(stateCountry: string): (country: string)
    ensures ',' !in country
    ensures Trimmed(country)
  {
    if ',' in stateCountry then Strip(Last(Split(stateCountry, ','))) else Strip(stateCountry)
  }

  /** With a comma: the country is the text after the last comma, stripped. */
  lemma CountryAfterLastComma(stateCountry: string, k: nat)
    requires k < |stateCountry| && stateCountry[k] == ','
    requires ',' !in stateCountry[k + 1..]
    ensures Country(stateCountry) == Strip(stateCountry[k + 1..])
  {
    SplitLastPiece(stateCountry, ',', k);
  }

  /** Without a comma: the country is the whole string, stripped. */
  lemma CountryWithoutComma(stateCountry: string)
    requires ',' !in stateCountry
    ensures Country(stateCountry) == Strip(stateCountry)
  {
  }

  /** The comma test is only a shortcut: a string without a comma splits into
      itself, so one formula covers both cases. */
  lemma CountryIsLastPieceStripped(stateCountry: string)
    ensures Country(stateCountry) == Strip(Last(Split(stateCountry, ',')))
  {
    if ',' !in stateCountry {
      SplitWithoutSeparator(stateCountry, ',');
    }
  }

  /** Deriving the country of a derived country changes nothing. */
  lemma CountryIdempotent(stateCountry: string)
    ensures Country(Country(stateCountry)) == Country(stateCountry)
  {
    StripFixedPoint(Country(stateCountry));
  }

  /** The rule may give the empty string: exactly when everything after the
      last comma (or the whole string, when there is none) is whitespace. */
  lemma CountryEmptyIff(stateCountry: string)
    ensures Country(stateCountry) == [] <==> AllSpace(Last(Split(stateCountry, ',')))
  {
    CountryIsLastPieceStripped(stateCountry);
  }

  /** A location written as `state,country` with a clean country gives back
      exactly that country, whatever the state (commas included). */
  lemma CountryOfStateAndCountry(state: string, country: string)
    requires ',' !in country && Trimmed(country)
    ensures Country(state + [','] + country) == country
  {
    var s := state + [','] + country;
    assert s[|state|] == ',' && s[|state| + 1..] == country;
    CountryAfterLastComma(s, |state|);
    StripFixedPoint(country);
  }

  /** The example `Hokkaido,Japan`. */
  lemma CountryOfHokkaido()
    ensures Country("Hokkaido,Japan") == "Japan"
  {
    assert "Hokkaido,Japan" == "Hokkaido" + [','] + "Japan";
    CountryOfStateAndCountry("Hokkaido", "Japan");
  }

  /** A space after the comma is stripped with the rest; a space alone after
      it gives the empty country. */
  lemma CountryAfterCommaSpace(state: string, country: string)
    requires ',' !in country && Trimmed(country)
    ensures Country(state + [',', ' '] + country) == country
  {
    var s := state + [',', ' '] + country;
    assert s[|state|] == ',' && s[|state| + 1..] == [' '] + country;
    CountryAfterLastComma(s, |state|);
    if country != [] {
      StripSurrounded([' '], country, []);
      assert [' '] + country + [] == [' '] + country;
    }
  }

  /** No comma: the whole string, stripped. */
  lemma CountryWithoutState()
    ensures Country(" Chile ") == "Chile"
  {
    assert " Chile " == " " + "Chile" + " ";
    assert ',' !in " Chile ";
    StripSurrounded(" ", "Chile", " ");
  }

  /** Nothing after the last comma: the country is empty, not an error. */
  lemma CountryOfTrailingComma(location: string)
    ensures Country(location + [',']) == []
  {
    var s := location + [','];
    assert s[|location|] == ',' && s[|location| + 1..] == [];
    CountryAfterLastComma(s, |location|);
  }

  /** A location of nothing but whitespace gives an empty country as well. */
  lemma CountryOfBlank(location: string)
    requires AllSpace(location)
    ensures Country(location) == []
  {
  }

  /** Adding the `country` column: one prepared row per input row, in the same
      order, each keeping all of its original cells and gaining the country
      derived from its own location string. */
  function AddCountryColumn(table: seq<Quake>): (prepared: seq<PreparedQuake>)
    ensures |prepared| == |table|
    ensures forall i :: 0 <= i < |table| ==>
              prepared[i].quake == table[i] && prepared[i].country == Country(table[i].stateCountry)
  {
    if table == [] then []
    else [PreparedQuake(table[0], Country(table[0].stateCountry))] + AddCountryColumn(table[1..])
  }

  /** The original columns of a prepared table. */
  function DropCountryColumn(prepared: seq<PreparedQuake>): (table: seq<Quake>)
    ensures |table| == |prepared|
  {
    if prepared == [] then [] else [prepared[0].quake] + DropCountryColumn(prepared[1..])
  }

  /** Adding the column leaves every other column as it was. */
  lemma {:induction false} DropAfterAdd(table: seq<Quake>)
    ensures DropCountryColumn(AddCountryColumn(table)) == table
  {
    if table != [] {
      var prepared := AddCountryColumn(table);
      assert prepared[0].quake == table[0];
      assert prepared[1..] == AddCountryColumn(table[1..]);
      DropAfterAdd(table[1..]);
      calc {
        DropCountryColumn(prepared);
        [table[0]] + DropCountryColumn(prepared[1..]);
        [table[0]] + table[1..];
        table;
      }
    }
  }

  /** The column is computed row by row: preparing two tables one after the
      other is the same as preparing their concatenation. */
  lemma {:induction false} AddCountryColumnConcat(a: seq<Quake>, b: seq<Quake>)
    ensures AddCountryColumn(a + b) == AddCountryColumn(a) + AddCountryColumn(b)
  {
    if a != [] {
      assert (a + b)[1..] == a[1..] + b;
      AddCountryColumnConcat(a[1..], b);
    } else {
      assert a + b == b;
    }
  }
}
