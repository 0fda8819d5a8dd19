/** The library's `version` table: reading it into a nine-field record, deciding whether the
    library is supported, and printing the record as a fixed-width table. */
module DbInfo {
  import opened Records

  type Uint32 = x: int | 0 <= x < 0x1_0000_0000
  type Int32 = x: int | -0x8000_0000 <= x < 0x8000_0000

  /** `ZoteroDBInfo`: one unsigned 32-bit version per schema part. */
  datatype ZoteroDBInfo = ZoteroDBInfo(
    userdata: Uint32, triggers: Uint32, translators: Uint32, system: Uint32, styles: Uint32,
    repository: Uint32, globalSchema: Uint32, deletes: Uint32, compatibility: Uint32)

  const DefaultInfo: ZoteroDBInfo := ZoteroDBInfo(0, 0, 0, 0, 0, 0, 0, 0, 0)

  /** The keys of the `version` table that have a setter, in field order; the eighth
      key is "delete" although the field (and its table row) is called "deletes". */
  const SetterKeys: seq<string> :=
    ["userdata", "triggers", "translators", "system", "styles", "repository", "globalSchema", "delete", "compatibility"]

  /** The row labels of the formatted table, in field order. */
  const RowNames: seq<string> :=
    ["userdata", "triggers", "translators", "system", "styles", "repository", "globalSchema", "deletes", "compatibility"]

  /** The i-th field of the record, in declaration order. */
  function FieldAt(info: ZoteroDBInfo, i: nat): Uint32
    requires i < 9
  {
    match i
    case 0 => info.userdata
    case 1 => info.triggers
    case 2 => info.translators
    case 3 => info.system
    case 4 => info.styles
    case 5 => info.repository
    case 6 => info.globalSchema
    case 7 => info.deletes
    case _ => info.compatibility
  }

  /** Two records with the same nine fields are the same record. */
  lemma FieldsDetermineInfo(a: ZoteroDBInfo, b: ZoteroDBInfo)
    requires forall i :: 0 <= i < 9 ==> FieldAt(a, i) == FieldAt(b, i)
    ensures a == b
  {
    assert FieldAt(a, 0) == FieldAt(b, 0) && FieldAt(a, 1) == FieldAt(b, 1) && FieldAt(a, 2) == FieldAt(b, 2);
    assert FieldAt(a, 3) == FieldAt(b, 3) && FieldAt(a, 4) == FieldAt(b, 4) && FieldAt(a, 5) == FieldAt(b, 5);
    assert FieldAt(a, 6) == FieldAt(b, 6) && FieldAt(a, 7) == FieldAt(b, 7) && FieldAt(a, 8) == FieldAt(b, 8);
  }

  /** `static_cast<std::uint32_t>` of a signed 32-bit value: wraps negatives modulo 2^32. */
  function ToUint32(v: Int32): (r: Uint32)
    ensures r % 0x1_0000_0000 == v % 0x1_0000_0000
    ensures v >= 0 ==> r == v
  {
    if v < 0 then v + 0x1_0000_0000 else v
  }

  /** `insertDBValue`: a known key sets exactly its field; any other key changes nothing. */
  function InsertDBValue(info: ZoteroDBInfo, key: string, val: Int32): (r: ZoteroDBInfo)
    ensures forall i :: 0 <= i < 9 ==>
      FieldAt(r, i) == if key == SetterKeys[i] then ToUint32(val) else FieldAt(info, i)
    ensures key !in SetterKeys ==> r == info
  {
    var v := ToUint32(val);
    if key == "userdata" then info.(userdata := v)
    else if key == "triggers" then info.(triggers := v)
    else if key == "translators" then info.(translators := v)
    else if key == "system" then info.(system := v)
    else if key == "styles" then info.(styles := v)
    else if key == "repository" then info.(repository := v)
    else if key == "globalSchema" then info.(globalSchema := v)
    else if key == "delete" then info.(deletes := v)
    else if key == "compatibility" then info.(compatibility := v)
    else info
  }

  /** A row of `SELECT * FROM version`: a possibly null schema name and its version. */
  datatype VersionRow = VersionRow(schema: Option<string>, version: Int32)

  /** The version of the last row named `key`, if any. */
  function LastVersion(rows: seq<VersionRow>, key: string): Option<Int32>
  {
    if rows == [] then None
    else if rows[|rows| - 1].schema == Some(key) then Some(rows[|rows| - 1].version)
    else LastVersion(rows[..|rows| - 1], key)
  }

  /** The record after feeding every row with a non-null name to `insertDBValue`, in order. */
  function InfoFromRows(rows: seq<VersionRow>): ZoteroDBInfo
  {
    if rows == [] then DefaultInfo
    else
      var prev := InfoFromRows(rows[..|rows| - 1]);
      match rows[|rows| - 1].schema
      case None => prev
      case Some(key) => InsertDBValue(prev, key, rows[|rows| - 1].version)
  }

  /** Reading the table: a field holds the version of the last row carrying its key, or 0. */
  lemma {:induction false} InfoFromRowsLastWins(rows: seq<VersionRow>, i: nat)
    requires i < 9
    ensures FieldAt(InfoFromRows(rows), i) ==
      match LastVersion(rows, SetterKeys[i]) case None => 0 case Some(v) => ToUint32(v)
  {
    if rows != [] {
      InfoFromRowsLastWins(rows[..|rows| - 1], i);
    }
  }

  /** The loop of `zotero_db_info` over the query result (the query itself is not modelled). */
  method ReadDbInfo(rows: seq<VersionRow>) returns (info: ZoteroDBInfo)
    ensures info == InfoFromRows(rows)
    ensures forall i :: 0 <= i < 9 && LastVersion(rows, SetterKeys[i]) == None ==> FieldAt(info, i) == 0
  {
    info := DefaultInfo;
    var j := 0;
    while j < |rows|
      invariant 0 <= j <= |rows|
      invariant info == InfoFromRows(rows[..j])
    {
      assert rows[..j + 1][..j] == rows[..j];
      if rows[j].schema.Some? {
        info := InsertDBValue(info, rows[j].schema.value, rows[j].version);
      }
      j := j + 1;
    }
    assert rows[..j] == rows;
    forall i | 0 <= i < 9 && LastVersion(rows, SetterKeys[i]) == None
      ensures FieldAt(info, i) == 0
    {
      InfoFromRowsLastWins(rows, i);
    }
  }

  /** `supported_zotero_db_info`. */
  function SupportedInfo(): ZoteroDBInfo
  {
    ZoteroDBInfo(120, 18, 1668085253, 32, 1668085253, 1671627457, 21, 74, 7)
  }

  /** The comparison of `is_supported_zotero_db`: only userdata and globalSchema are checked. */
  function IsSupported(info: ZoteroDBInfo): (b: bool)
    ensures b <==> info.userdata == 120 && info.globalSchema == 21
  {
    info.userdata == SupportedInfo().userdata && info.globalSchema == SupportedInfo().globalSchema
  }

  /** The supported record is supported, and changing any of the other seven fields
      of a record never changes the verdict. */
  lemma SupportIgnoresOtherFields(a: ZoteroDBInfo, b: ZoteroDBInfo)
    requires FieldAt(a, 0) == FieldAt(b, 0) && FieldAt(a, 6) == FieldAt(b, 6)
    ensures IsSupported(a) == IsSupported(b)
    ensures IsSupported(SupportedInfo())
  {
  }

  /** `is_supported_zotero_db` applied to the rows its query would return. */
  function IsSupportedZoteroDb(rows: seq<VersionRow>): (b: bool)
    ensures b <==> LastVersion(rows, "userdata") == Some(120) && LastVersion(rows, "globalSchema") == Some(21)
  {
    InfoFromRowsLastWins(rows, 0);
    InfoFromRowsLastWins(rows, 6);
    IsSupported(InfoFromRows(rows))
  }

  // ---------------------------------------------------------------------------
  // Decimal text of an unsigned value, and reading it back.

  function Digit(d: nat): char
    requires d < 10
  {
    "0123456789"[d]
  }

  function DigitValue(c: char): nat
  {
    if '0' <= c <= '9' then (c as int - '0' as int) else 0
  }

  /** Decimal text, most significant digit first, no leading zeros. */
  function DecimalString(n: nat): (s: string)
    ensures |s| >= 1
    ensures forall k :: 0 <= k < |s| ==> '0' <= s[k] <= '9'
  {
    if n < 10 then [Digit(n)] else DecimalString(n / 10) + [Digit(n % 10)]
  }

  function ParseDecimal(s: string): nat
  {
    if s == [] then 0 else 10 * ParseDecimal(s[..|s| - 1]) + DigitValue(s[|s| - 1])
  }

  lemma {:induction false} DecimalRoundTrip(n: nat)
    ensures ParseDecimal(DecimalString(n)) == n
  {
    var s := DecimalString(n);
    if n >= 10 {
      var init := DecimalString(n / 10);
      assert s == init + [Digit(n % 10)];
      assert s[..|s| - 1] == init;
      DecimalRoundTrip(n / 10);
      DigitRoundTrip(n % 10);
    } else {
      DigitRoundTrip(n);
    }
  }

  /** Only zero itself is written with a leading '0'. */
  lemma {:induction false} NoLeadingZero(n: nat)
    ensures DecimalString(n)[0] == '0' ==> n == 0
  {
    if n >= 10 {
      assert DecimalString(n)[0] == DecimalString(n / 10)[0];
      NoLeadingZero(n / 10);
    }
  }

  lemma DigitRoundTrip(d: nat)
    requires d < 10
    ensures DigitValue(Digit(d)) == d
  {
  }

  /** A 32-bit unsigned value has at most ten digits. */
  lemma {:induction false} DecimalLength(n: nat, bound: nat, d: nat)
    requires n < bound && d >= 1 && bound == Pow10(d)
    ensures |DecimalString(n)| <= d
  {
    if n >= 10 {
      assert d >= 2;
      DecimalLength(n / 10, Pow10(d - 1), d - 1);
    }
  }

  function Pow10(d: nat): (p: nat)
    ensures p >= 1
  {
    if d == 0 then 1 else 10 * Pow10(d - 1)
  }

  // ---------------------------------------------------------------------------
  // The formatted table.

  function Spaces(k: nat): (s: string)
    ensures |s| == k && forall j :: 0 <= j < k ==> s[j] == ' '
  {
    seq(k, _ => ' ')
  }

  /** `{:<w}`: left-aligned, padded with spaces, never truncated. */
  function PadRight(s: string, w: nat): string
  {
    if |s| >= w then s else s + Spaces(w - |s|)
  }

  /** `{:>w}`: right-aligned, padded with spaces, never truncated. */
  function PadLeft(s: string, w: nat): string
  {
    if |s| >= w then s else Spaces(w - |s|) + s
  }

  function TrimLeadingSpaces(s: string): string
  {
    if s != [] && s[0] == ' ' then TrimLeadingSpaces(s[1..]) else s
  }

  /** `{:-<29}` of the empty string, with its line break. */
  function RuleLine(): string
  {
    seq(29, _ => '-') + "\n"
  }

  /** `|{:<15}|{:>11}|` with its line break. */
  function RowLine(name: string, value: Uint32): string
  {
    "|" + PadRight(name, 15) + "|" + PadLeft(DecimalString(value), 11) + "|\n"
  }

  /** The table row of field `i`. */
  function Row(info: ZoteroDBInfo, i: nat): string
    requires i < 9
  {
    RowLine(RowNames[i], FieldAt(info, i))
  }

  /** The table rows of fields `i` to 8. */
  function Rows(info: ZoteroDBInfo, i: nat): string
    requires i <= 9
    decreases 9 - i
  {
    if i == 9 then "" else Row(info, i) + Rows(info, i + 1)
  }

  /** The title line and the rule under it. */
  function Header(): string
  {
    "ZoteroDBInfo:\n" + RuleLine()
  }

  /** `formatted_zotero_db_info`. */
  function Formatted(info: ZoteroDBInfo): string
  {
    Header() + Rows(info, 0) + RuleLine()
  }

  /** The value read back from the second column of a table row. */
  function ParseValueCell(row: string): nat
    requires |row| >= 28
  {
    ParseDecimal(TrimLeadingSpaces(row[17..28]))
  }

  lemma {:induction false} TrimPadded(k: nat, s: string)
    requires s != [] && s[0] != ' '
    ensures TrimLeadingSpaces(Spaces(k) + s) == s
  {
    if k > 0 {
      assert (Spaces(k) + s)[1..] == Spaces(k - 1) + s;
      TrimPadded(k - 1, s);
    }
  }

  /** A table row is 29 characters plus a line break, with bars at columns 0, 16 and 28,
      the name left-aligned after the first bar, and the value readable from the second cell. */
  lemma RowLineShape(name: string, value: Uint32)
    requires |name| <= 15
    ensures var row := RowLine(name, value);
      && |row| == 30 && row[0] == '|' && row[16] == '|' && row[28] == '|' && row[29] == '\n'
      && row[1..1 + |name|] == name
      && row[1 + |name|..16] == Spaces(15 - |name|)
      && |DecimalString(value)| <= 11
      && row[17..28] == Spaces(11 - |DecimalString(value)|) + DecimalString(value)
      && (DecimalString(value)[0] == '0' ==> value == 0)
      && ParseValueCell(row) == value
  {
    var d := DecimalString(value);
    DecimalLength(value, Pow10(10), 10);
    var cell := Spaces(11 - |d|) + d;
    assert PadLeft(d, 11) == cell;
    assert PadRight(name, 15) == name + Spaces(15 - |name|);
    var row := RowLine(name, value);
    assert row == "|" + PadRight(name, 15) + "|" + cell + "|\n";
    assert row[1 + |name|..16] == Spaces(15 - |name|);
    assert row[17..28] == cell;
    TrimPadded(11 - |d|, d);
    DecimalRoundTrip(value);
    NoLeadingZero(value);
  }

  /** Row `i` of the table is 30 characters long. */
  lemma RowLength(info: ZoteroDBInfo, i: nat)
    requires i < 9
    ensures |Row(info, i)| == 30
  {
    DecimalLength(FieldAt(info, i), Pow10(10), 10);
    NameFits(i);
  }

  lemma {:induction false} RowsLength(info: ZoteroDBInfo, i: nat)
    requires i <= 9
    ensures |Rows(info, i)| == 30 * (9 - i)
    decreases 9 - i
  {
    if i < 9 {
      RowLength(info, i);
      RowsLength(info, i + 1);
    }
  }

  lemma {:induction false} RowsSlice(info: ZoteroDBInfo, i: nat, j: nat)
    requires i <= j < 9
    ensures |Rows(info, i)| == 30 * (9 - i)
    ensures Rows(info, i)[30 * (j - i)..30 * (j - i) + 30] == Row(info, j)
    decreases 9 - i
  {
    RowsLength(info, i);
    RowsLength(info, i + 1);
    var head := Row(info, i);
    var tail := Rows(info, i + 1);
    RowLength(info, i);
    assert Rows(info, i) == head + tail;
    if j > i {
      RowsSlice(info, i + 1, j);
      var k := 30 * (j - i - 1);
      assert 30 * (j - i) == 30 + k;
      SliceOfAppend(head, tail, k, 30);
    } else {
      assert (head + tail)[0..30] == head;
    }
  }

  lemma SliceOfAppend<T>(head: seq<T>, tail: seq<T>, k: nat, w: nat)
    requires k + w <= |tail|
    ensures (head + tail)[|head| + k..|head| + k + w] == tail[k..k + w]
  {
  }

  /** The table is 344 characters long, and row `i` (counting from the first field row)
      carries the i-th field's label and reads back as that field's value. */
  lemma FormattedReadsBack(info: ZoteroDBInfo, i: nat)
    requires i < 9
    ensures |Formatted(info)| == 14 + 30 * 11
    ensures var row := Formatted(info)[44 + 30 * i..74 + 30 * i];
      && |RowNames[i]| <= 15
      && row[0] == '|' && row[16] == '|' && row[28] == '|' && row[29] == '\n'
      && row[1..1 + |RowNames[i]|] == RowNames[i]
      && row[1 + |RowNames[i]|..16] == Spaces(15 - |RowNames[i]|)
      && |DecimalString(FieldAt(info, i))| <= 11
      && row[17..28] == Spaces(11 - |DecimalString(FieldAt(info, i))|) + DecimalString(FieldAt(info, i))
      && ParseValueCell(row) == FieldAt(info, i)
  {
    var name, value := RowNames[i], FieldAt(info, i);
    NameFits(i);
    RowLineShape(name, value);
    FormattedSlice(info, i);
  }

  /** The table opens with its title line and a rule, and closes with the same rule. */
  lemma FormattedFrame(info: ZoteroDBInfo)
    ensures |Formatted(info)| == 344
    ensures Formatted(info)[..14] == "ZoteroDBInfo:\n"
    ensures Formatted(info)[14..44] == RuleLine() && Formatted(info)[314..344] == RuleLine()
  {
    HeaderLength();
    RowsLength(info, 0);
    FrameOfParts("ZoteroDBInfo:\n", Rows(info, 0), RuleLine(), Formatted(info));
  }

  /** The slices of title + rule + rows + rule, by length alone. */
  lemma FrameOfParts(title: string, rows: string, rule: string, t: string)
    requires |title| == 14 && |rows| == 270 && |rule| == 30
    requires t == title + rule + rows + rule
    ensures |t| == 344 && t[..14] == title && t[14..44] == rule && t[314..344] == rule
  {
    assert t[..14] == title;
    assert t[14..44] == rule;
    assert t[314..344] == rule;
  }

  /** A rule is 29 dashes and a line break. */
  lemma RuleLineShape()
    ensures |RuleLine()| == 30 && RuleLine()[29] == '\n'
    ensures forall j :: 0 <= j < 29 ==> RuleLine()[j] == '-'
  {
  }

  lemma NameFits(i: nat)
    requires i < 9
    ensures |RowNames[i]| <= 15
  {
  }

  lemma FormattedSlice(info: ZoteroDBInfo, i: nat)
    requires i < 9
    ensures |Formatted(info)| == 344
    ensures Formatted(info)[44 + 30 * i..74 + 30 * i] == Row(info, i)
  {
    RowsSlice(info, 0, i);
    HeaderLength();
    SliceInFrame(Header(), Rows(info, 0), RuleLine(), 30 * i, 30);
  }

  lemma HeaderLength()
    ensures |Header()| == 44 && |RuleLine()| == 30
  {
  }

  /** A slice of the middle part of a three-part concatenation. */
  lemma SliceInFrame<T>(head: seq<T>, mid: seq<T>, tail: seq<T>, k: nat, w: nat)
    requires k + w <= |mid|
    ensures (head + mid + tail)[|head| + k..|head| + k + w] == mid[k..k + w]
  {
    assert (head + mid + tail)[|head| + k..|head| + k + w] == (head + mid)[|head| + k..|head| + k + w];
  }
}
