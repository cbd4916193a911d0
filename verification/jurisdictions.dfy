/**
 * The jurisdictions table of the county and its cities, and its two lookups:
 * by exact id, and by a free-text name that matches case-insensitively either
 * part of the display name or the id written with dashes.
 */
module Jurisdictions {
  import opened Wrappers
  import opened Seqs
  import opened Text

  /** A jurisdiction, reduced to the two fields the lookups read. */
  datatype Jurisdiction = Jurisdiction(id: string, name: string)

  /** The table, in its published order. */
  const JURISDICTIONS: seq<Jurisdiction> := [
    Jurisdiction("thurston-county", "Thurston County (Unincorporated)"),
    Jurisdiction("lacey", "City of Lacey"),
    Jurisdiction("olympia", "City of Olympia"),
    Jurisdiction("tumwater", "City of Tumwater"),
    Jurisdiction("yelm", "City of Yelm"),
    Jurisdiction("tenino", "City of Tenino"),
    Jurisdiction("bucoda", "City of Bucoda")
  ]

  /** No two entries of the table share an id. */
  lemma IdsDistinct()
    ensures forall i, j :: 0 <= i < j < |JURISDICTIONS| ==> JURISDICTIONS[i].id != JURISDICTIONS[j].id
  {
  }

  function HasId(id: string): Jurisdiction -> bool {
    (j: Jurisdiction) => j.id == id
  }

  /** The first entry whose id is exactly `id`, or None when there is none. */
  function GetJurisdictionById(id: string): (r: Option<Jurisdiction>)
    ensures r.None? <==> forall i :: 0 <= i < |JURISDICTIONS| ==> JURISDICTIONS[i].id != id
    ensures r.Some? ==> r.value in JURISDICTIONS && r.value.id == id
  {
    Find(JURISDICTIONS, HasId(id))
  }

  /** Looking up the id of any entry gives back that entry. */
  lemma {:induction false} GetByIdRoundTrip(i: int)
    requires 0 <= i < |JURISDICTIONS|
    ensures GetJurisdictionById(JURISDICTIONS[i].id) == Some(JURISDICTIONS[i])
  {
    IdsDistinct();
    assert IsFirstMatch(JURISDICTIONS, HasId(JURISDICTIONS[i].id), i);
    FindFirst(JURISDICTIONS, HasId(JURISDICTIONS[i].id), i);
  }

  /**
   * Whether entry `j` answers the query `name`: its lower-cased display name
   * contains the lower-cased query, or its id equals the lower-cased query
   * with every whitespace run replaced by a dash.
   */
  predicate NameMatches(j: Jurisdiction, name: string) {
    var query := ToLower(name);
    Contains(ToLower(j.name), query) || j.id == Slugify(query)
  }

  function MatchesName(name: string): Jurisdiction -> bool {
    (j: Jurisdiction) => NameMatches(j, name)
  }

  /** Entry `i` of `table` answers the query and no earlier entry does. */
  predicate FirstNameMatchAt(table: seq<Jurisdiction>, name: string, i: int) {
    0 <= i < |table| && NameMatches(table[i], name) &&
    forall k :: 0 <= k < i ==> !NameMatches(table[k], name)
  }

  /** The search of `getJurisdictionByName`, over any table. */
  function FindByName(table: seq<Jurisdiction>, name: string): (r: Option<Jurisdiction>)
    ensures r.None? <==> forall i :: 0 <= i < |table| ==> !NameMatches(table[i], name)
    ensures r.Some? ==> exists i :: FirstNameMatchAt(table, name, i) && table[i] == r.value
  {
    var r := Find(table, MatchesName(name));
    assert r.Some? ==> exists i :: FirstNameMatchAt(table, name, i) && table[i] == r.value by {
      if r.Some? {
        var i :| IsFirstMatch(table, MatchesName(name), i) && table[i] == r.value;
        assert FirstNameMatchAt(table, name, i);
      }
    }
    r
  }

  /** The first entry, in table order, that answers the query, or None when none does. */
  function GetJurisdictionByName(name: string): (r: Option<Jurisdiction>)
    ensures r.None? <==> forall i :: 0 <= i < |JURISDICTIONS| ==> !NameMatches(JURISDICTIONS[i], name)
    ensures r.Some? ==> exists i :: FirstNameMatchAt(JURISDICTIONS, name, i) && JURISDICTIONS[i] == r.value
  {
    FindByName(JURISDICTIONS, name)
  }

  /** The converse: the first entry answering the query is the one returned. */
  lemma GetByNameFirst(name: string, i: int)
    requires FirstNameMatchAt(JURISDICTIONS, name, i)
    ensures GetJurisdictionByName(name) == Some(JURISDICTIONS[i])
  {
    assert IsFirstMatch(JURISDICTIONS, MatchesName(name), i);
    FindFirst(JURISDICTIONS, MatchesName(name), i);
  }

  /** Over any table, the name search sees the query only through its lower-cased form. */
  lemma FindByNameLowerCased(table: seq<Jurisdiction>, name: string)
    ensures FindByName(table, name) == FindByName(table, ToLower(name))
  {
    ToLowerIdempotent(name);
    FindAgrees(table, MatchesName(name), MatchesName(ToLower(name)));
  }

  /** The lookup by name sees the query only through its lower-cased form. */
  lemma GetByNameLowerCased(name: string)
    ensures GetJurisdictionByName(name) == GetJurisdictionByName(ToLower(name))
  {
    FindByNameLowerCased(JURISDICTIONS, name);
  }

  /** Two queries that differ only in the case of their letters give the same answer. */
  lemma GetByNameCaseInsensitive(a: string, b: string)
    requires ToLower(a) == ToLower(b)
    ensures GetJurisdictionByName(a) == GetJurisdictionByName(b)
  {
    GetByNameLowerCased(a);
    GetByNameLowerCased(b);
  }

  /** Every string contains the empty string, so over any non-empty table the empty query selects the first entry. */
  lemma FindByNameEmpty(table: seq<Jurisdiction>)
    requires table != []
    ensures FindByName(table, "") == Some(table[0])
  {
    assert ToLower("") == "";
    ContainsEmpty(ToLower(table[0].name));
    assert IsFirstMatch(table, MatchesName(""), 0);
    FindFirst(table, MatchesName(""), 0);
  }

  /** The empty query returns the first entry of the table. */
  lemma GetByNameEmpty()
    ensures GetJurisdictionByName("") == Some(Jurisdiction("thurston-county", "Thurston County (Unincorporated)"))
  {
    FindByNameEmpty(JURISDICTIONS);
  }

  /** A query naming an id, with spaces where the id has dashes, finds that entry whatever else it matches later. */
  lemma GetByNameSlugMatchesId(name: string, i: int)
    requires 0 <= i < |JURISDICTIONS| && JURISDICTIONS[i].id == Slugify(ToLower(name))
    ensures GetJurisdictionByName(name).Some?
    ensures exists k :: 0 <= k <= i && GetJurisdictionByName(name) == Some(JURISDICTIONS[k])
  {
    assert NameMatches(JURISDICTIONS[i], name);
  }
}
