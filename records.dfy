/**
 * One street-tree record (`Tree`): the fields kept from a row of the
 * dataset, the validation its constructor applies, and its equality and
 * ordering. A field the constructor rejected keeps its Java default:
 * 0 for the numbers, `None` (null) for the strings.
 */
module Records {
  import opened Wrappers
  import opened Text

  type Zip = z: int | 0 <= z <= 99999

  /** The coordinates `x_sp` and `y_sp` are not part of this model. */
  datatype Tree = Tree(
    id: nat,
    diam: nat,
    status: Option<string>,
    health: Option<string>,
    species: string,
    zip: Zip,
    boro: Option<string>)

  predicate ValidStatus(s: string) {
    EqualsIgnoreCase(s, "Alive") || EqualsIgnoreCase(s, "Dead") || EqualsIgnoreCase(s, "Stump") || s == ""
  }

  predicate ValidHealth(s: string) {
    EqualsIgnoreCase(s, "Good") || EqualsIgnoreCase(s, "Fair") || EqualsIgnoreCase(s, "Poor") || s == ""
  }

  predicate ValidBorough(b: string) {
    || EqualsIgnoreCase(b, "Manhattan")
    || EqualsIgnoreCase(b, "Bronx")
    || EqualsIgnoreCase(b, "Brooklyn")
    || EqualsIgnoreCase(b, "Queens")
    || EqualsIgnoreCase(b, "Staten Island")
  }

  /** What the constructor guarantees of every record it builds. */
  predicate Constructed(t: Tree) {
    && (t.status.Some? ==> ValidStatus(t.status.value))
    && (t.health.Some? ==> ValidHealth(t.health.value))
    && (t.boro.Some? ==> ValidBorough(t.boro.value))
  }

  /**
   * The constructor: each field is stored only when its argument passes that
   * field's check; otherwise the error is logged and the field keeps its
   * default, and construction still succeeds.
   */
  function NewTree(id: int, diam: int, status: string, health: string, spc: string, zip: int, boro: string): (t: Tree)
    ensures id > 0 ==> t.id == id
    ensures id <= 0 ==> t.id == 0
    ensures diam >= 0 ==> t.diam == diam
    ensures diam < 0 ==> t.diam == 0
    ensures t.status.Some? <==> ValidStatus(status)
    ensures t.status.Some? ==> t.status.value == status
    ensures t.health.Some? <==> ValidHealth(health)
    ensures t.health.Some? ==> t.health.value == health
    ensures t.species == spc
    ensures 0 <= zip <= 99999 ==> t.zip == zip
    ensures !(0 <= zip <= 99999) ==> t.zip == 0
    ensures t.boro.Some? <==> ValidBorough(boro)
    ensures t.boro.Some? ==> t.boro.value == boro
    ensures Constructed(t)
  {
    Tree(
      if id > 0 then id else 0,
      if diam >= 0 then diam else 0,
      if ValidStatus(status) then Some(status) else None,
      if ValidHealth(health) then Some(health) else None,
      spc,
      if 0 <= zip <= 99999 then zip else 0,
      if ValidBorough(boro) then Some(boro) else None)
  }

  /** `getZip`: the stored zip code formatted with five digits and parsed back. */
  function GetZip(t: Tree): (z: int)
    ensures z == t.zip
  {
    ZipRoundTrip(t.zip);
    ParseInt(FormatZip(t.zip)).value
  }

  /** The three ways `equals` can end. */
  datatype EqualsOutcome = Equal | NotEqual | IdClash

  /**
   * The branches of `equals`: the same id and the same species ignoring case
   * is equal; the same id with another species raises the integrity error.
   */
  function EqualsBranch(a: Tree, b: Tree): EqualsOutcome {
    if a.id == b.id && EqualsIgnoreCase(a.species, b.species) then Equal
    else if a.id == b.id && !EqualsIgnoreCase(a.species, b.species) then IdClash
    else NotEqual
  }

  /** `equals`: the integrity error is caught, logged and reported as `false`. */
  function Equals(a: Tree, b: Tree): (r: bool)
    ensures r <==> a.id == b.id && EqualsIgnoreCase(a.species, b.species)
  {
    match EqualsBranch(a, b)
    case Equal => true
    case IdClash => false
    case NotEqual => false
  }

  /** Two records with one id and different species raise the integrity error, which `equals` turns into `false`. */
  lemma IdClashIsNotEqual(a: Tree, b: Tree)
    requires a.id == b.id && !EqualsIgnoreCase(a.species, b.species)
    ensures EqualsBranch(a, b) == IdClash && !Equals(a, b)
  {
  }

  /** `compareTo`: species name ignoring case first, then id. */
  function CompareTo(a: Tree, b: Tree): (r: int)
    ensures -1 <= r <= 1
    ensures r == 0 <==> a.id == b.id && EqualsIgnoreCase(a.species, b.species)
    ensures !EqualsIgnoreCase(a.species, b.species) ==> r == CompareIgnoreCase(a.species, b.species)
    ensures EqualsIgnoreCase(a.species, b.species) && a.id != b.id ==> (r > 0 <==> a.id > b.id)
  {
    if Equals(a, b) then 0
    else if a.id != b.id && EqualsIgnoreCase(a.species, b.species) then
      if a.id > b.id then 1 else -1
    else if CompareIgnoreCase(a.species, b.species) > 0 then 1
    else -1
  }

  /** The lexicographic order on the key (lower-cased species, id), written independently of `compareTo`. */
  function KeyCompare(a: Tree, b: Tree): int {
    var c := LexCompare(Lower(a.species), Lower(b.species));
    if c != 0 then c
    else if a.id < b.id then -1
    else if a.id > b.id then 1
    else 0
  }

  /** `compareTo` is exactly the lexicographic order on (lower-cased species, id). */
  lemma CompareToIsKeyOrder(a: Tree, b: Tree)
    ensures CompareTo(a, b) == KeyCompare(a, b)
  {
  }

  /** `compareTo` is antisymmetric. */
  lemma CompareToAntisymmetric(a: Tree, b: Tree)
    ensures CompareTo(a, b) == -CompareTo(b, a)
  {
    LexAntisymmetric(Lower(a.species), Lower(b.species));
  }

  /** `compareTo` is transitive when its second step is at most equal. */
  lemma CompareToTransitive(a: Tree, b: Tree, c: Tree)
    requires CompareTo(a, b) < 0 && CompareTo(b, c) <= 0
    ensures CompareTo(a, c) < 0
  {
    var la, lb, lc := Lower(a.species), Lower(b.species), Lower(c.species);
    if la != lb && lb != lc {
      LexTransitive(la, lb, lc);
    }
  }

  /** `sameName`: the species names are equal ignoring case, whatever the ids. */
  function SameName(a: Tree, b: Tree): (r: bool)
    ensures r <==> CompareIgnoreCase(a.species, b.species) == 0
  {
    if EqualsIgnoreCase(a.species, b.species) then true else false
  }

  /** `compareName`: the sign of the case-insensitive comparison of the species names. */
  function CompareName(a: Tree, b: Tree): (r: int)
    ensures r == 0 <==> SameName(a, b)
    ensures r == CompareIgnoreCase(a.species, b.species)
  {
    if CompareIgnoreCase(a.species, b.species) < 0 then -1
    else if CompareIgnoreCase(a.species, b.species) > 0 then 1
    else 0
  }
}
