/**
 * The pure computations of `ProcessCsvFile` (internal/fileservice/service/service.go):
 * the destination object's name, the mapping of a source row onto the 19-column
 * target record, and the test that decides whether a mapped row is written.
 */
module Transform {
  import opened Wrappers
  import opened Models
  import opened GoStrings
  import opened GoStrconv

  /** Go reference-time layout `yyyyMMdd-HHmmss` used to name destination objects. */
  const DateLayout: string := "20060102-150405"

  /** The fixed header of every destination object. */
  const Header: seq<string> := ["phoneNumber", "fullName", "firstName", "lastName", "address", "city", "area",
    "zipCode", "country", "jobTitle", "email", "companyName", "website", "longitude", "latitude", "subSource",
    "action", "categoryName", "isBusiness"]

  /** The number of columns of a target record. */
  const Columns: nat := 19

  // Positions of the mapped columns in a target record.
  const PhoneNumber: nat := 0
  const FullName: nat := 1
  const FirstName: nat := 2
  const LastName: nat := 3
  const Action: nat := 16
  const CategoryName: nat := 17
  const IsBusiness: nat := 18

  /** The action a 5-column row gets. */
  const DefaultAction: string := "A"

  /** The mapped columns line up with the header's names; the 12 columns between them are the unmapped ones. */
  lemma HeaderColumns()
    ensures |Header| == Columns
    ensures Header[PhoneNumber] == "phoneNumber" && Header[FullName] == "fullName"
    ensures Header[FirstName] == "firstName" && Header[LastName] == "lastName"
    ensures Header[Action] == "action" && Header[CategoryName] == "categoryName"
    ensures Header[IsBusiness] == "isBusiness"
    ensures Header[LastName + 1..Action] == ["address", "city", "area", "zipCode", "country", "jobTitle",
      "email", "companyName", "website", "longitude", "latitude", "subSource"]
  {
  }

  // ---------------------------------------------------------------- key naming

  /** The calendar fields that `Format(DateLayout)` renders with fixed widths (four-digit year). */
  predicate InLayoutRange(d: DateTime) {
    0 <= d.year <= 9999 && 1 <= d.month <= 12 && 1 <= d.day <= 31 &&
    0 <= d.hour <= 23 && 0 <= d.minute <= 59 && 0 <= d.second <= 59
  }

  function Digit(n: int): char
    requires 0 <= n <= 9
  {
    (n + '0' as int) as char
  }

  function TwoDigits(n: int): string
    requires 0 <= n <= 99
  {
    [Digit(n / 10), Digit(n % 10)]
  }

  function FourDigits(n: int): string
    requires 0 <= n <= 9999
  {
    [Digit(n / 1000), Digit(n / 100 % 10), Digit(n / 10 % 10), Digit(n % 10)]
  }

  /**
   * `Updated.Format(DateLayout)`: year, month, day, `-`, hour, minute, second,
   * each zero-padded. The result has the shape of `DateLayout` itself: 15
   * characters, digits everywhere except a `-` at index 8.
   */
  function FormatStamp(d: DateTime): (r: string)
    requires InLayoutRange(d)
    ensures |r| == |DateLayout| == 15
    ensures forall k :: 0 <= k < |r| ==> (IsDigit(r[k]) <==> IsDigit(DateLayout[k]))
    ensures r[8] == DateLayout[8] == '-'
  {
    FourDigits(d.year) + TwoDigits(d.month) + TwoDigits(d.day) + "-" +
    TwoDigits(d.hour) + TwoDigits(d.minute) + TwoDigits(d.second)
  }

  /** Reads a `yyyyMMdd-HHmmss` stamp back into calendar fields: the inverse of `FormatStamp`. */
  function ParseStamp(s: string): Option<DateTime>
  {
    if |s| == 15 && s[8] == '-' && AllDigits(s[..8]) && AllDigits(s[9..]) then
      Some(DateTime(DecimalValue(s[0..4]), DecimalValue(s[4..6]), DecimalValue(s[6..8]),
                    DecimalValue(s[9..11]), DecimalValue(s[11..13]), DecimalValue(s[13..15])))
    else None
  }

  lemma TwoDigitsValue(n: int)
    requires 0 <= n <= 99
    ensures AllDigits(TwoDigits(n)) && DecimalValue(TwoDigits(n)) == n
  {
    var s := TwoDigits(n);
    assert s[..1][..0] == [];
    assert s[..1] == [Digit(n / 10)];
    assert DecimalValue(s[..1]) == n / 10;
    assert n / 10 * 10 + n % 10 == n;
  }

  lemma FourDigitsValue(n: int)
    requires 0 <= n <= 9999
    ensures AllDigits(FourDigits(n)) && DecimalValue(FourDigits(n)) == n
  {
    var s := FourDigits(n);
    assert s[..3][..2][..1][..0] == [];
    assert s[..3][..2] == [Digit(n / 1000), Digit(n / 100 % 10)];
    assert s[..3] == [Digit(n / 1000), Digit(n / 100 % 10), Digit(n / 10 % 10)];
    assert DecimalValue(s[..3][..2][..1]) == n / 1000;
    assert DecimalValue(s[..3][..2]) == n / 100;
    assert DecimalValue(s[..3]) == n / 10;
  }

  /** The stamp determines the calendar fields: parsing a rendered stamp gives them back. */
  lemma {:induction false} StampRoundTrip(d: DateTime)
    requires InLayoutRange(d)
    ensures ParseStamp(FormatStamp(d)) == Some(d)
  {
    var s := FormatStamp(d);
    FourDigitsValue(d.year);
    TwoDigitsValue(d.month);
    TwoDigitsValue(d.day);
    TwoDigitsValue(d.hour);
    TwoDigitsValue(d.minute);
    TwoDigitsValue(d.second);
    assert s[0..4] == FourDigits(d.year);
    assert s[4..6] == TwoDigits(d.month);
    assert s[6..8] == TwoDigits(d.day);
    assert s[9..11] == TwoDigits(d.hour);
    assert s[11..13] == TwoDigits(d.minute);
    assert s[13..15] == TwoDigits(d.second);
    assert AllDigits(s[..8]) by {
      assert s[..8] == s[0..4] + s[4..6] + s[6..8];
    }
    assert AllDigits(s[9..]) by {
      assert s[9..] == s[9..11] + s[11..13] + s[13..15];
    }
  }

  /**
   * The destination object's name, `dPrefix + Updated.Format(DateLayout) + ".csv"`.
   * It starts with the prefix, ends with `.csv`, and the 15 characters between are the stamp.
   */
  function DestinationKey(dPrefix: string, t: Timestamp): (key: string)
    requires InLayoutRange(t.clock)
    ensures |key| == |dPrefix| + 15 + 4
    ensures key[..|dPrefix|] == dPrefix
    ensures key[|dPrefix|..|dPrefix| + 15] == FormatStamp(t.clock)
    ensures HasSuffix(key, ".csv")
  {
    var key := dPrefix + FormatStamp(t.clock) + ".csv";
    assert key[|dPrefix|..|dPrefix| + 15] == FormatStamp(t.clock);
    assert key[|key| - 4..] == ".csv";
    key
  }

  /** The 15 characters after the prefix read back as the modification time's calendar fields. */
  lemma DestinationKeyStamp(dPrefix: string, t: Timestamp)
    requires InLayoutRange(t.clock)
    ensures ParseStamp(DestinationKey(dPrefix, t)[|dPrefix|..|dPrefix| + 15]) == Some(t.clock)
  {
    StampRoundTrip(t.clock);
  }

  /** Two source files get the same destination name only when their modification times agree to the second. */
  lemma DestinationKeyInjective(dPrefix: string, t1: Timestamp, t2: Timestamp)
    requires InLayoutRange(t1.clock) && InLayoutRange(t2.clock)
    requires DestinationKey(dPrefix, t1) == DestinationKey(dPrefix, t2)
    ensures t1.clock == t2.clock
  {
    var k := DestinationKey(dPrefix, t1);
    DestinationKeyStamp(dPrefix, t1);
    DestinationKeyStamp(dPrefix, t2);
    assert Some(t1.clock) == ParseStamp(k[|dPrefix|..|dPrefix| + 15]) == Some(t2.clock);
  }

  /** The naming example: 2024-03-05 10:00:00 under prefix `out/`. */
  lemma DestinationKeyExample(text: string)
    ensures DestinationKey("out/", Timestamp(DateTime(2024, 3, 5, 10, 0, 0), text)) == "out/20240305-100000.csv"
  {
    StampExample();
  }

  lemma StampExample()
    ensures FormatStamp(DateTime(2024, 3, 5, 10, 0, 0)) == "20240305-100000"
  {
    assert FourDigits(2024) == "2024";
    assert TwoDigits(3) == "03" && TwoDigits(5) == "05" && TwoDigits(10) == "10" && TwoDigits(0) == "00";
  }

  // ---------------------------------------------------------------- row mapping

  /** `strings.Join([]string{firstName, lastName}, " ")`, trimmed. */
  function JoinName(firstName: string, lastName: string): (r: string)
    ensures |r| <= |firstName| + 1 + |lastName|
    ensures |r| > 0 ==> !IsSpace(r[0]) && !IsSpace(r[|r| - 1])
  {
    TrimSpace(firstName + " " + lastName)
  }

  /** The twelve columns from address to subSource, which the mapping leaves empty. */
  function EmptyColumns(): (r: seq<string>)
    ensures |r| == 12 && forall k :: 0 <= k < 12 ==> r[k] == ""
  {
    ["", "", "", "", "", "", "", "", "", "", "", ""]
  }

  /** The 19-column target record with the mapped values in place and the other columns empty. */
  function TargetRecord(phoneNumber: string, firstName: string, lastName: string, action: string,
                        categoryName: string, isBusiness: string): (d: seq<string>)
    ensures |d| == Columns
    ensures d[PhoneNumber] == phoneNumber && d[FullName] == JoinName(firstName, lastName)
    ensures d[FirstName] == firstName && d[LastName] == lastName
    ensures forall k :: LastName < k < Action ==> d[k] == ""
    ensures d[Action] == action && d[CategoryName] == categoryName && d[IsBusiness] == isBusiness
  {
    [phoneNumber, JoinName(firstName, lastName), firstName, lastName] + EmptyColumns() + [action, categoryName, isBusiness]
  }

  /**
   * The per-row switch: a 5-column row `phone, first, last, category, isBusiness`
   * gets action "A"; a 6-column row carries its action first; any other column
   * count is fatal. First and last name are trimmed, the full name is their
   * trimmed join, and the twelve columns from address to subSource stay empty.
   */
  function MapRow(row: seq<string>): (r: Result<seq<string>, FatalError>)
    ensures r.Ok? <==> |row| == 5 || |row| == 6
    ensures r.Fatal? ==> r.error == ColumnCount(|row|)
    ensures r.Ok? ==> |r.value| == Columns
  {
    if |row| == 5 then
      Ok(TargetRecord(row[0], TrimSpace(row[1]), TrimSpace(row[2]), DefaultAction, row[3], row[4]))
    else if |row| == 6 then
      Ok(TargetRecord(row[1], TrimSpace(row[2]), TrimSpace(row[3]), row[0], row[4], row[5]))
    else
      Fatal(ColumnCount(|row|))
  }

  /**
   * Where each source column lands: with `o` the number of leading action
   * columns (0 or 1), phone, first, last, category and isBusiness come from
   * positions `o` to `o + 4`, and the action is "A" or the row's first column.
   */
  lemma MapRowColumns(row: seq<string>)
    requires |row| == 5 || |row| == 6
    ensures var o := |row| - 5; var d := MapRow(row).value;
      d[PhoneNumber] == row[o] &&
      d[FirstName] == TrimSpace(row[o + 1]) && d[LastName] == TrimSpace(row[o + 2]) &&
      d[FullName] == JoinName(d[FirstName], d[LastName]) &&
      (forall k :: LastName < k < Action ==> d[k] == "") &&
      d[Action] == (if o == 0 then DefaultAction else row[0]) &&
      d[CategoryName] == row[o + 3] && d[IsBusiness] == row[o + 4]
  {
    if |row| == 5 {
      var d := MapRow(row).value;
      assert d == TargetRecord(row[0], TrimSpace(row[1]), TrimSpace(row[2]), DefaultAction, row[3], row[4]);
    } else {
      var d := MapRow(row).value;
      assert d == TargetRecord(row[1], TrimSpace(row[2]), TrimSpace(row[3]), row[0], row[4], row[5]);
    }
  }

  /** A 5-column row and the same row with an explicit leading action "A" map to the same record. */
  lemma FiveColumnsDefaultAction(row: seq<string>)
    requires |row| == 5
    ensures MapRow(row) == MapRow([DefaultAction] + row)
  {
    assert ([DefaultAction] + row)[1..] == row;
  }

  // ---------------------------------------------------------------- validation

  /** A mapped row is written when its phone number parses as a 64-bit decimal integer and its full name is not empty. */
  predicate IsValid(d: seq<string>)
    requires |d| == Columns
    ensures IsValid(d) ==> |d[PhoneNumber]| > 0 && |d[FullName]| > 0
    ensures IsValid(d) ==> forall k :: 0 < k < |d[PhoneNumber]| ==> IsDigit(d[PhoneNumber][k])
    ensures IsValid(d) ==> var p := d[PhoneNumber]; IsDigit(p[0]) || (|p| > 1 && (p[0] == '+' || p[0] == '-'))
  {
    ParseInt64(d[PhoneNumber]).Some? && |d[FullName]| > 0
  }

  lemma AllSpaceTrimmed(s: string)
    ensures AllSpace(TrimSpace(s)) <==> AllSpace(s)
  {
    var t := TrimSpace(s);
    if t != [] { assert !IsSpace(t[0]); }
  }

  /** The full name is empty exactly when both the first and the last name are blank. */
  lemma JoinNameEmpty(firstName: string, lastName: string)
    ensures JoinName(TrimSpace(firstName), TrimSpace(lastName)) == [] <==> AllSpace(firstName) && AllSpace(lastName)
  {
    var f, l := TrimSpace(firstName), TrimSpace(lastName);
    AllSpaceAppend(f + " ", l);
    AllSpaceAppend(f, " ");
    AllSpaceTrimmed(firstName);
    AllSpaceTrimmed(lastName);
  }

  /**
   * Which well-formed rows are kept, stated on the source row itself: the phone
   * column must parse, and at least one of the two name columns must hold a
   * character that is not white space.
   */
  lemma {:induction false} KeptIff(row: seq<string>)
    requires |row| == 5 || |row| == 6
    ensures var o := |row| - 5;
      IsValid(MapRow(row).value) <==>
        ParseInt64(row[o]).Some? && !(AllSpace(row[o + 1]) && AllSpace(row[o + 2]))
  {
    var o := |row| - 5;
    JoinNameEmpty(row[o + 1], row[o + 2]);
  }

  /** A non-numeric phone number is rejected. */
  lemma NonNumericPhoneDropped()
    ensures !IsValid(MapRow(["abc", "Jo", "Doe", "cat", "false"]).value)
  {
    ParseRejectsNonDigit("abc", 0);
  }

  /** A row whose names are blank is rejected even with a valid phone number. */
  lemma BlankNameDropped()
    ensures !IsValid(MapRow(["123", " ", "", "cat", "false"]).value)
  {
    var row := ["123", " ", "", "cat", "false"];
    MapRowColumns(row);
    JoinNameEmpty(row[1], row[2]);
    assert AllSpace(row[1]) by { assert row[1] == " " && IsSpace(' '); }
  }

  lemma ExamplePhoneParses()
    ensures ParseInt64("555") == Some(555)
  {
    ParseFormatRoundTrip(555);
    assert FormatInt(555) == "555";
  }

  /** "555", "Jo", "Doe" is kept, with full name "Jo Doe". */
  lemma NamedRowKept()
    ensures IsValid(MapRow(["555", "Jo", "Doe", "cat", "false"]).value)
    ensures MapRow(["555", "Jo", "Doe", "cat", "false"]).value[FullName] == "Jo Doe"
  {
    var row := ["555", "Jo", "Doe", "cat", "false"];
    MapRowColumns(row);
    ExamplePhoneParses();
    TrimSpaceKeeps("Jo");
    TrimSpaceKeeps("Doe");
    assert "Jo" + " " + "Doe" == "Jo Doe";
    TrimSpaceKeeps("Jo Doe");
  }

  /** A source header row (`action,phone_number,...`) maps without error and is then dropped. */
  lemma SourceHeaderRowDropped()
    ensures var row := ["action", "phone_number", "first_name", "last_name", "category_name", "is_business"];
      MapRow(row).Ok? && !IsValid(MapRow(row).value)
  {
    var row := ["action", "phone_number", "first_name", "last_name", "category_name", "is_business"];
    ParseRejectsNonDigit(row[1], 0);
  }
}
