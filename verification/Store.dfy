/** The key/value store a host publishes through DNS-SD: how keys are built from a resource,
    a record index and a field name, and what is found under them after writing. */
module Store {
  import opened Text
  import opened Records

  /** The fields of the two record types. */
  datatype Field =
    | Type | Port | Device | X | Y | Width | Height | FlagBits
    | Name | Hostname | Mac | IPv4 | IPv6 | Linkspeed | Up

  function FieldName(f: Field): string {
    match f
    case Type => "Type"
    case Port => "Port"
    case Device => "Device"
    case X => "X"
    case Y => "Y"
    case Width => "Width"
    case Height => "Height"
    case FlagBits => "Flags"
    case Name => "Name"
    case Hostname => "Hostname"
    case Mac => "MAC"
    case IPv4 => "IPv4"
    case IPv6 => "IPv6"
    case Linkspeed => "Linkspeed"
    case Up => "Up"
  }

  const NODE_ID := "NodeID"
  const NODE_NAME := "Hostname"
  const SESSION := "Session"

  function Resource(f: Family): string {
    if f.GpuFamily? then "GPU" else "Net"
  }

  type Texts = map<string, string>

  /** An absent key and an empty value read the same. */
  function Get(st: Texts, key: string): string {
    if key in st then st[key] else ""
  }

  function IndexKey(f: Family, i: nat, field: Field): string {
    Resource(f) + Print(i) + " " + FieldName(field)
  }

  function CountKey(f: Family): string {
    Resource(f) + " " + "Count"
  }

  predicate IsGlobal(key: string) {
    key == NODE_ID || key == NODE_NAME || key == SESSION
  }

  // ---------- keys never collide ----------

  lemma FieldNamesDiffer(f: Field, g: Field)
    requires FieldName(f) == FieldName(g)
    ensures f == g
  {
    var s := FieldName(f);
    assert f == FieldOf(|s|, s[0], s[|s| - 1]);
    assert g == FieldOf(|s|, s[0], s[|s| - 1]);
  }

  /** Length, first and last character tell the field names apart. */
  function FieldOf(n: nat, first: char, last: char): Field {
    match n
    case 1 => if first == 'X' then X else Y
    case 2 => Up
    case 3 => Mac
    case 4 => if first == 'T' then Type else if first == 'P' then Port else if first == 'N' then Name
              else if last == '4' then IPv4 else IPv6
    case 5 => if first == 'W' then Width else FlagBits
    case 6 => if first == 'D' then Device else Height
    case 8 => Hostname
    case _ => Linkspeed
  }

  lemma SplitKey(r: string, i: nat, x: string, j: nat, y: string)
    requires r + Print(i) + " " + x == r + Print(j) + " " + y
    ensures i == j && x == y
  {
    var p, q := " " + x, " " + y;
    assert (r + Print(i) + " " + x)[|r|..] == Print(i) + p;
    assert (r + Print(j) + " " + y)[|r|..] == Print(j) + q;
    PrintIsPrefixFree(i, j, p, q);
    assert p[1..] == x && q[1..] == y;
  }

  /** Index keys are injective in record index and field. */
  lemma IndexKeysDiffer(f: Family, i: nat, a: Field, j: nat, b: Field)
    requires IndexKey(f, i, a) == IndexKey(f, j, b)
    ensures i == j && a == b
  {
    SplitKey(Resource(f), i, FieldName(a), j, FieldName(b));
    FieldNamesDiffer(a, b);
  }

  /** An index key is neither the count key nor a global key, and the count is not global. */
  lemma KeySpacesAreDisjoint(f: Family, i: nat, a: Field)
    ensures IndexKey(f, i, a) != CountKey(f)
    ensures !IsGlobal(IndexKey(f, i, a)) && !IsGlobal(CountKey(f))
  {
    var k, c := IndexKey(f, i, a), CountKey(f);
    assert k[3] == Print(i)[0] && IsDigit(k[3]);
    assert c[3] == ' ';
    assert k[0] == c[0] == Resource(f)[0] && k[1] == c[1] == Resource(f)[1];
    assert NODE_ID[1] == 'o' && NODE_NAME[0] == 'H' && SESSION[0] == 'S';
  }

  lemma KeyIs(f: Family, i: nat, a: Field, suffix: string)
    requires " " + FieldName(a) == suffix
    ensures IndexKey(f, i, a) == Resource(f) + Print(i) + suffix
  {
    assert Resource(f) + Print(i) + " " + FieldName(a) == Resource(f) + Print(i) + (" " + FieldName(a));
  }

  /** The keys are those of the documented protocol. */
  lemma DocumentedGpuKeys(i: nat)
    ensures var k := "GPU" + Print(i);
      && IndexKey(GpuFamily, i, Type) == k + " Type" && IndexKey(GpuFamily, i, Port) == k + " Port"
      && IndexKey(GpuFamily, i, Device) == k + " Device" && IndexKey(GpuFamily, i, FlagBits) == k + " Flags"
      && IndexKey(GpuFamily, i, X) == k + " X" && IndexKey(GpuFamily, i, Y) == k + " Y"
      && IndexKey(GpuFamily, i, Width) == k + " Width" && IndexKey(GpuFamily, i, Height) == k + " Height"
    ensures CountKey(GpuFamily) == "GPU Count"
  {
    hide IndexKey, Print;
    KeyIs(GpuFamily, i, Type, " Type");
    KeyIs(GpuFamily, i, Port, " Port");
    KeyIs(GpuFamily, i, Device, " Device");
    KeyIs(GpuFamily, i, FlagBits, " Flags");
    KeyIs(GpuFamily, i, X, " X");
    KeyIs(GpuFamily, i, Y, " Y");
    KeyIs(GpuFamily, i, Width, " Width");
    KeyIs(GpuFamily, i, Height, " Height");
  }

  lemma DocumentedNetKeys(i: nat)
    ensures var k := "Net" + Print(i);
      && IndexKey(NetFamily, i, Type) == k + " Type" && IndexKey(NetFamily, i, Name) == k + " Name"
      && IndexKey(NetFamily, i, Hostname) == k + " Hostname" && IndexKey(NetFamily, i, Mac) == k + " MAC"
      && IndexKey(NetFamily, i, IPv4) == k + " IPv4" && IndexKey(NetFamily, i, IPv6) == k + " IPv6"
      && IndexKey(NetFamily, i, Linkspeed) == k + " Linkspeed" && IndexKey(NetFamily, i, Up) == k + " Up"
    ensures CountKey(NetFamily) == "Net Count"
  {
    hide IndexKey, Print;
    KeyIs(NetFamily, i, Type, " Type");
    KeyIs(NetFamily, i, Name, " Name");
    KeyIs(NetFamily, i, Hostname, " Hostname");
    KeyIs(NetFamily, i, Mac, " MAC");
    KeyIs(NetFamily, i, IPv4, " IPv4");
    KeyIs(NetFamily, i, IPv6, " IPv6");
    KeyIs(NetFamily, i, Linkspeed, " Linkspeed");
    KeyIs(NetFamily, i, Up, " Up");
  }

  /** Setting one field of one record changes what is found under no other key. */
  lemma PutCell(f: Family, st: Texts, i: nat, a: Field, text: string)
    ensures var st' := st[IndexKey(f, i, a) := text];
      && (forall j: nat, b ::
            Get(st', IndexKey(f, j, b)) == if j == i && b == a then text else Get(st, IndexKey(f, j, b)))
      && (forall key :: key == CountKey(f) || IsGlobal(key) ==> Get(st', key) == Get(st, key))
  {
    hide IndexKey, CountKey, IsGlobal;
    KeySpacesAreDisjoint(f, i, a);
    forall j: nat, b | IndexKey(f, j, b) == IndexKey(f, i, a) ensures j == i && b == a {
      IndexKeysDiffer(f, j, b, i, a);
    }
  }

  // ---------- writing records ----------

  /** The fields a record is written as; the last one set is outermost. */
  datatype Row = Empty | Then(before: Row, field: Field, text: string)

  /** The text a row sets a field to, if it does. */
  function Look(row: Row, a: Field): Option<string> {
    match row
    case Empty => None
    case Then(before, field, text) => if field == a then Some(text) else Look(before, a)
  }

  /** The store after the fields of record i have been set. */
  function PutRow(f: Family, st: Texts, i: nat, row: Row): Texts {
    match row
    case Empty => st
    case Then(before, field, text) => PutRow(f, st, i, before)[IndexKey(f, i, field) := text]
  }

  /** The store after all records have been written, in order. */
  function PutRows(f: Family, st: Texts, rows: seq<Row>): Texts {
    if rows == [] then st else
      var n := |rows| - 1;
      PutRow(f, PutRows(f, st, rows[..n]), n, rows[n])
  }

  lemma {:induction false} RowLookup(f: Family, st: Texts, n: nat, row: Row, i: nat, a: Field)
    ensures Get(PutRow(f, st, n, row), IndexKey(f, i, a))
         == if i == n && Look(row, a).Some? then Look(row, a).value else Get(st, IndexKey(f, i, a))
  {
    if row.Then? {
      RowLookup(f, st, n, row.before, i, a);
      PutCell(f, PutRow(f, st, n, row.before), n, row.field, row.text);
      hide Get, IndexKey;
    }
  }

  /** What record i's field reads as: the value written, or else what was there before. */
  lemma {:induction false} RowsLookup(f: Family, st: Texts, rows: seq<Row>, i: nat, a: Field)
    ensures Get(PutRows(f, st, rows), IndexKey(f, i, a))
         == if i < |rows| && Look(rows[i], a).Some? then Look(rows[i], a).value else Get(st, IndexKey(f, i, a))
  {
    if rows != [] {
      var n := |rows| - 1;
      RowsLookup(f, st, rows[..n], i, a);
      RowLookup(f, PutRows(f, st, rows[..n]), n, rows[n], i, a);
    }
  }

  lemma {:induction false} RowFrame(f: Family, st: Texts, n: nat, row: Row, key: string)
    requires key == CountKey(f) || IsGlobal(key)
    ensures Get(PutRow(f, st, n, row), key) == Get(st, key)
  {
    if row.Then? {
      RowFrame(f, st, n, row.before, key);
      KeySpacesAreDisjoint(f, n, row.field);
    }
  }

  /** Writing records leaves the count and the global keys alone. */
  lemma {:induction false} RowsFrame(f: Family, st: Texts, rows: seq<Row>, key: string)
    requires key == CountKey(f) || IsGlobal(key)
    ensures Get(PutRows(f, st, rows), key) == Get(st, key)
  {
    if rows != [] {
      var n := |rows| - 1;
      RowsFrame(f, st, rows[..n], key);
      RowFrame(f, PutRows(f, st, rows[..n]), n, rows[n], key);
    }
  }
}
