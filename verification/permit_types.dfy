/**
 * The catalogue of permit types and its two lookups: by exact id, and all
 * types of one category in catalogue order.
 */
module PermitTypes {
  import opened Wrappers
  import opened Seqs

  /** The five categories a permit type may declare. */
  datatype Category = Building | LandUse | Septic | Well | Tree

  /** A permit type, reduced to the fields the lookups read (and its display name). */
  datatype PermitType = PermitType(id: string, name: string, category: Category)

  /** The catalogue, in its published order. */
  const PERMIT_TYPES: seq<PermitType> := [
    PermitType("residential-building", "Residential Building Permit", Building),
    PermitType("commercial-building", "Commercial Building Permit", Building),
    PermitType("adu", "Accessory Dwelling Unit (ADU)", Building),
    PermitType("septic", "Septic System Permit", Septic),
    PermitType("critical-areas", "Critical Areas Review", LandUse)
  ]

  /** No two entries of the catalogue share an id. */
  lemma IdsDistinct()
    ensures forall i, j :: 0 <= i < j < |PERMIT_TYPES| ==> PERMIT_TYPES[i].id != PERMIT_TYPES[j].id
  {
  }

  function HasId(id: string): PermitType -> bool {
    (p: PermitType) => p.id == id
  }

  /** The first entry whose id is exactly `id`, or None when there is none. */
  function GetPermitTypeById(id: string): (r: Option<PermitType>)
    ensures r.None? <==> forall i :: 0 <= i < |PERMIT_TYPES| ==> PERMIT_TYPES[i].id != id
    ensures r.Some? ==> r.value in PERMIT_TYPES && r.value.id == id
  {
    Find(PERMIT_TYPES, HasId(id))
  }

  /** Looking up the id of any entry gives back that entry. */
  lemma {:induction false} GetByIdRoundTrip(i: int)
    requires 0 <= i < |PERMIT_TYPES|
    ensures GetPermitTypeById(PERMIT_TYPES[i].id) == Some(PERMIT_TYPES[i])
  {
    IdsDistinct();
    assert IsFirstMatch(PERMIT_TYPES, HasId(PERMIT_TYPES[i].id), i);
    FindFirst(PERMIT_TYPES, HasId(PERMIT_TYPES[i].id), i);
  }

  function InCategory(c: Category): PermitType -> bool {
    (p: PermitType) => p.category == c
  }

  /** The entries of `table` in category `c`, in table order. */
  function OfCategory(table: seq<PermitType>, c: Category): (r: seq<PermitType>)
    ensures forall p :: p in r <==> p in table && p.category == c
    ensures IsSubsequence(r, table)
    ensures forall p :: multiset(r)[p] == if p.category == c then multiset(table)[p] else 0
  {
    var r := Filter(table, InCategory(c));
    FilterMultiplicity(table, InCategory(c));
    assert forall p :: p in r ==> p in table && p.category == c by {
      forall p | p in r ensures p in table && p.category == c {
        var i :| 0 <= i < |r| && r[i] == p;
      }
    }
    assert forall p :: p in table && p.category == c ==> p in r by {
      forall p | p in table && p.category == c ensures p in r {
        var i :| 0 <= i < |table| && table[i] == p;
      }
    }
    r
  }

  /** Every entry of the catalogue whose category is `c`, in catalogue order. */
  function GetPermitTypesByCategory(c: Category): (r: seq<PermitType>)
    ensures forall p :: p in r <==> p in PERMIT_TYPES && p.category == c
    ensures IsSubsequence(r, PERMIT_TYPES)
    ensures forall p :: multiset(r)[p] == if p.category == c then multiset(PERMIT_TYPES)[p] else 0
  {
    OfCategory(PERMIT_TYPES, c)
  }

  /** The five categories split any table: their result lengths add up to its length. */
  lemma {:induction false} CategoriesPartition(table: seq<PermitType>)
    ensures |OfCategory(table, Building)| + |OfCategory(table, LandUse)| + |OfCategory(table, Septic)|
            + |OfCategory(table, Well)| + |OfCategory(table, Tree)| == |table|
  {
    if table != [] {
      CategoriesPartition(table[1..]);
      OfCategoryCons(table, Building);
      OfCategoryCons(table, LandUse);
      OfCategoryCons(table, Septic);
      OfCategoryCons(table, Well);
      OfCategoryCons(table, Tree);
    }
  }

  /** The category filter counts the first entry when it is of the category, then goes on with the rest. */
  lemma OfCategoryCons(table: seq<PermitType>, c: Category)
    requires table != []
    ensures |OfCategory(table, c)| == (if table[0].category == c then 1 else 0) + |OfCategory(table[1..], c)|
  {
    assert table == [table[0]] + table[1..];
    FilterCons(table[0], table[1..], InCategory(c));
  }

  /** Over the catalogue: every entry is in the result of exactly one category, and the counts add up. */
  lemma CatalogueByCategory()
    ensures forall p, c :: p in PERMIT_TYPES ==> (p in GetPermitTypesByCategory(c) <==> c == p.category)
    ensures |GetPermitTypesByCategory(Building)| + |GetPermitTypesByCategory(LandUse)|
            + |GetPermitTypesByCategory(Septic)| + |GetPermitTypesByCategory(Well)|
            + |GetPermitTypesByCategory(Tree)| == |PERMIT_TYPES|
  {
    CategoriesPartition(PERMIT_TYPES);
  }

  /** No catalogue entry is a well or tree permit, so those categories give nothing. */
  lemma WellAndTreeEmpty()
    ensures GetPermitTypesByCategory(Well) == []
    ensures GetPermitTypesByCategory(Tree) == []
  {
    assert forall p :: p in PERMIT_TYPES ==> p.category != Well && p.category != Tree;
  }
}
