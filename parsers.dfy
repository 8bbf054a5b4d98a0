/**
 * Provider row parsers and their registry. A parser claims a file by its
 * header (`Sniff`) and turns each data row into a transaction candidate
 * carrying a fingerprint of the row's raw text (`Parse`).
 *
 * Rows arrive already split into column-name to raw-text maps. The SHA-256
 * digest and ISO-8601 timestamp parsing are passed in as functions the model
 * does not interpret.
 */
module Parsers {
  import opened Wrappers
  import opened Models

  /** One data row: column name to raw text. A column the row has no value for is absent. */
  type Row = map<string, string>

  const SellingPointColumn: string := "selling_point"
  const EptColumn: string := "ept"
  const AmountColumn: string := "amount_cents"
  const CurrencyColumnName: string := "currency"
  const OccurredAtColumn: string := "occurred_at"
  const CardLast4Column: string := "card_last4"

  /** The six columns of the mock Worldline export, in fingerprint order. */
  const WorldlineColumns: seq<string> :=
    [SellingPointColumn, EptColumn, AmountColumn, CurrencyColumnName, OccurredAtColumn, CardLast4Column]

  /** The registered provider formats. */
  datatype Parser = WorldlineMock

  function Name(p: Parser): string {
    match p
    case WorldlineMock => "mock_worldline"
  }

  /** The columns a parser needs in the header. */
  function ExpectedFields(p: Parser): set<string> {
    match p
    case WorldlineMock =>
      {SellingPointColumn, EptColumn, AmountColumn, CurrencyColumnName, OccurredAtColumn, CardLast4Column}
  }

  /** Whether the header holds every expected column. */
  function Sniff(p: Parser, header: seq<string>): (r: bool)
    ensures p == WorldlineMock ==>
      (r <==> && "selling_point" in header && "ept" in header && "amount_cents" in header
              && "currency" in header && "occurred_at" in header && "card_last4" in header)
  {
    forall c :: c in ExpectedFields(p) ==> c in header
  }

  /** Order, repetition and extra columns do not matter: only which names occur. */
  lemma SniffDependsOnNamesOnly(p: Parser, h1: seq<string>, h2: seq<string>)
    requires forall c :: c in h1 ==> c in h2
    ensures Sniff(p, h1) ==> Sniff(p, h2)
  {
  }

  /** The parser registry: provider name to parser. */
  const Registry: map<string, Parser> := map["mock_worldline" := WorldlineMock]

  function LookupParser(name: string): (r: Option<Parser>)
    ensures r.Some? <==> name == "mock_worldline"
    ensures r.Some? ==> Name(r.value) == name
  {
    if name in Registry then Some(Registry[name]) else None
  }

  // ---------------------------------------------------------------------------
  // Fingerprint

  /** `sep.join(parts)`. */
  function Join(sep: string, parts: seq<string>): string {
    if parts == [] then ""
    else if |parts| == 1 then parts[0]
    else parts[0] + sep + Join(sep, parts[1..])
  }

  datatype ParseError = MissingColumn(column: string) | NotAnInteger(text: string) | NotATimestamp(text: string)

  /** The raw values of `columns` in order, or the first column the row lacks. */
  function RawFields(row: Row, columns: seq<string>): (r: Result<seq<string>, ParseError>)
    ensures r.Ok? <==> forall c :: c in columns ==> c in row
    ensures r.Ok? ==> |r.value| == |columns| && forall i :: 0 <= i < |columns| ==> r.value[i] == row[columns[i]]
    ensures r.Err? ==> exists i :: && 0 <= i < |columns| && columns[i] !in row
                                   && r.error == MissingColumn(columns[i])
                                   && forall j :: 0 <= j < i ==> columns[j] in row
  {
    if columns == [] then Ok([])
    else if columns[0] !in row then Err(MissingColumn(columns[0]))
    else
      match RawFields(row, columns[1..])
      case Err(e) =>
        assert forall c :: c in columns[1..] ==> c in columns;
        MissingColumnShift(row, columns, e);
        Err(e)
      case Ok(vs) =>
        assert forall c :: c in columns ==> c == columns[0] || c in columns[1..];
        Ok([row[columns[0]]] + vs)
  }

  lemma MissingColumnShift(row: Row, columns: seq<string>, e: ParseError)
    requires columns != [] && columns[0] in row
    requires exists i :: && 0 <= i < |columns[1..]| && columns[1..][i] !in row
                         && e == MissingColumn(columns[1..][i])
                         && forall j :: 0 <= j < i ==> columns[1..][j] in row
    ensures exists i :: && 0 <= i < |columns| && columns[i] !in row
                        && e == MissingColumn(columns[i])
                        && forall j :: 0 <= j < i ==> columns[j] in row
  {
    var i :| && 0 <= i < |columns[1..]| && columns[1..][i] !in row
             && e == MissingColumn(columns[1..][i])
             && forall j :: 0 <= j < i ==> columns[1..][j] in row;
    assert columns[i + 1] == columns[1..][i];
    forall j | 0 <= j < i + 1 ensures columns[j] in row {
      if j > 0 {
        assert columns[j] == columns[1..][j - 1];
      }
    }
  }

  /** The text the fingerprint hashes: the six raw values joined with `|`. */
  function FingerprintInput(row: Row): (r: Result<string, ParseError>)
    ensures r.Ok? <==> HasColumns(row)
  {
    match RawFields(row, WorldlineColumns)
    case Err(e) => Err(e)
    case Ok(vs) => Ok(Join("|", vs))
  }

  predicate HasColumns(row: Row) {
    forall c :: c in WorldlineColumns ==> c in row
  }

  lemma FingerprintLayout(row: Row)
    ensures FingerprintInput(row).Ok? <==> HasColumns(row)
    ensures HasColumns(row) ==> FingerprintInput(row) == Ok(
      row["selling_point"] + "|" + row["ept"] + "|" + row["amount_cents"] + "|" +
      row["currency"] + "|" + row["occurred_at"] + "|" + row["card_last4"])
  {
    if HasColumns(row) {
      var vs := RawFields(row, WorldlineColumns).value;
      assert vs == [row["selling_point"], row["ept"], row["amount_cents"],
                    row["currency"], row["occurred_at"], row["card_last4"]];
      assert vs[5..] == [vs[5]];
      assert vs[4..][1..] == vs[5..];
      assert vs[3..][1..] == vs[4..];
      assert vs[2..][1..] == vs[3..];
      assert vs[1..][1..] == vs[2..];
      assert Join("|", vs[4..]) == vs[4] + "|" + vs[5];
      assert Join("|", vs[3..]) == vs[3] + "|" + (vs[4] + "|" + vs[5]);
      assert Join("|", vs[2..]) == vs[2] + "|" + (vs[3] + "|" + (vs[4] + "|" + vs[5]));
      assert Join("|", vs[1..]) == vs[1] + "|" + (vs[2] + "|" + (vs[3] + "|" + (vs[4] + "|" + vs[5])));
      assert Join("|", vs) == vs[0] + "|" + (vs[1] + "|" + (vs[2] + "|" + (vs[3] + "|" + (vs[4] + "|" + vs[5]))));
      SeqAssoc6(vs[0], vs[1], vs[2], vs[3], vs[4], vs[5]);
    }
  }

  lemma SeqAssoc6(a: string, b: string, c: string, d: string, e: string, f: string)
    ensures a + "|" + (b + "|" + (c + "|" + (d + "|" + (e + "|" + f))))
         == a + "|" + b + "|" + c + "|" + d + "|" + e + "|" + f
  {
  }

  /** Two rows that agree on the six columns have the same fingerprint input (or the same error). */
  lemma {:induction false} RawFieldsAgree(r1: Row, r2: Row, columns: seq<string>)
    requires forall c :: c in columns ==> (c in r1 <==> c in r2) && (c in r1 ==> r1[c] == r2[c])
    ensures RawFields(r1, columns) == RawFields(r2, columns)
  {
    if columns != [] {
      assert forall c :: c in columns[1..] ==> c in columns;
      RawFieldsAgree(r1, r2, columns[1..]);
    }
  }

  ghost predicate PipeFree(s: string) {
    '|' !in s
  }

  /** The position of the first `|` in a text (its length when there is none). */
  function FirstPipe(s: string): nat {
    if s == [] || s[0] == '|' then 0 else 1 + FirstPipe(s[1..])
  }

  lemma {:induction false} FirstPipeAfter(a: string, x: string)
    requires PipeFree(a)
    ensures FirstPipe(a + "|" + x) == |a|
  {
    if a != [] {
      assert a[0] in a;
      assert (a + "|" + x)[1..] == a[1..] + "|" + x;
      assert forall c :: c in a[1..] ==> c in a;
      FirstPipeAfter(a[1..], x);
    }
  }

  /** Splitting at the first `|`: a pipe-free head is recovered from `a + "|" + x`. */
  lemma PipeFreeHead(a: string, x: string, b: string, y: string)
    requires PipeFree(a) && PipeFree(b)
    requires a + "|" + x == b + "|" + y
    ensures a == b && x == y
  {
    var s := a + "|" + x;
    FirstPipeAfter(a, x);
    FirstPipeAfter(b, y);
    assert a == s[..|a|] && b == s[..|b|];
    assert x == s[|a| + 1..] && y == s[|b| + 1..];
  }

  /** Joining is injective on parts of which all but the last are free of the separator. */
  lemma {:induction false} JoinInjective(ps: seq<string>, qs: seq<string>)
    requires |ps| == |qs|
    requires forall i :: 0 <= i < |ps| - 1 ==> PipeFree(ps[i]) && PipeFree(qs[i])
    requires Join("|", ps) == Join("|", qs)
    ensures ps == qs
  {
    if |ps| > 1 {
      PipeFreeHead(ps[0], Join("|", ps[1..]), qs[0], Join("|", qs[1..]));
      JoinInjective(ps[1..], qs[1..]);
      assert ps == [ps[0]] + ps[1..] && qs == [qs[0]] + qs[1..];
    }
  }

  /**
   * When the first five raw values contain no `|`, equal fingerprint inputs mean
   * equal raw values: a change in any of the six columns changes what is hashed.
   */
  lemma FingerprintInputInjective(r1: Row, r2: Row)
    requires HasColumns(r1) && HasColumns(r2)
    requires forall i :: 0 <= i < 5 ==>
      PipeFree(r1[WorldlineColumns[i]]) && PipeFree(r2[WorldlineColumns[i]])
    requires FingerprintInput(r1) == FingerprintInput(r2)
    ensures forall c :: c in WorldlineColumns ==> r1[c] == r2[c]
  {
    var vs1 := RawFields(r1, WorldlineColumns).value;
    var vs2 := RawFields(r2, WorldlineColumns).value;
    JoinInjective(vs1, vs2);
    forall c | c in WorldlineColumns ensures r1[c] == r2[c] {
      var i :| 0 <= i < |WorldlineColumns| && WorldlineColumns[i] == c;
      assert vs1[i] == vs2[i];
    }
  }

  /** With a `|` inside a value, two different rows hash the same text. */
  lemma FingerprintCollision()
    ensures var r1 := map["selling_point" := "a|b", "ept" := "c", "amount_cents" := "1",
                          "currency" := "CHF", "occurred_at" := "t", "card_last4" := "0000"];
            var r2 := r1["selling_point" := "a"]["ept" := "b|c"];
            r1["selling_point"] != r2["selling_point"] && FingerprintInput(r1) == FingerprintInput(r2)
  {
    var r1 := map["selling_point" := "a|b", "ept" := "c", "amount_cents" := "1",
                  "currency" := "CHF", "occurred_at" := "t", "card_last4" := "0000"];
    var r2 := r1["selling_point" := "a"]["ept" := "b|c"];
    FingerprintLayout(r1);
    FingerprintLayout(r2);
    assert "a|b" + "|" + "c" == "a" + "|" + "b|c";
  }

  // ---------------------------------------------------------------------------
  // Integer text

  predicate IsDigit(c: char) {
    '0' <= c <= '9'
  }

  predicate AllDigits(s: string) {
    |s| > 0 && forall i :: 0 <= i < |s| ==> IsDigit(s[i])
  }

  /** The value of a string of decimal digits. */
  function DigitsValue(s: string): nat
    requires forall i :: 0 <= i < |s| ==> IsDigit(s[i])
  {
    if s == [] then 0
    else
      assert IsDigit(s[|s| - 1]);
      10 * DigitsValue(s[..|s| - 1]) + (s[|s| - 1] as int - '0' as int)
  }

  /** `int(text)` on an optional sign followed by decimal digits; anything else fails. */
  function ParseInt(s: string): (r: Option<int>)
    ensures r.Some? <==> AllDigits(s) || (|s| > 1 && (s[0] == '-' || s[0] == '+') && AllDigits(s[1..]))
    ensures AllDigits(s) ==> r == Some(DigitsValue(s))
    ensures r.Some? && (s[0] == '-' || s[0] == '+') ==>
      r.value == (if s[0] == '-' then -(DigitsValue(s[1..]) as int) else DigitsValue(s[1..]) as int)
  {
    if |s| > 1 && (s[0] == '-' || s[0] == '+') && AllDigits(s[1..]) then
      var n: int := DigitsValue(s[1..]);
      Some(if s[0] == '-' then -n else n)
    else if AllDigits(s) then Some(DigitsValue(s))
    else None
  }

  /** The decimal text of a natural number. */
  function ShowNat(n: nat): (s: string)
    ensures AllDigits(s)
  {
    if n < 10 then [('0' as int + n) as char]
    else ShowNat(n / 10) + [('0' as int + n % 10) as char]
  }

  function ShowInt(n: int): string {
    if n < 0 then "-" + ShowNat(-n) else ShowNat(n)
  }

  lemma {:induction false} ShowNatValue(n: nat)
    ensures DigitsValue(ShowNat(n)) == n
  {
    var s := ShowNat(n);
    if n >= 10 {
      ShowNatValue(n / 10);
      assert s[..|s| - 1] == ShowNat(n / 10);
    }
  }

  /** `int` reads back the decimal text of every integer. */
  lemma ParseShowInt(n: int)
    ensures ParseInt(ShowInt(n)) == Some(n)
  {
    if n < 0 {
      ShowNatValue(-n);
      assert ShowInt(n)[1..] == ShowNat(-n);
    } else {
      ShowNatValue(n);
    }
  }

  // ---------------------------------------------------------------------------
  // Rows to candidates

  /** The transaction candidate a row yields, with unresolved selling point and terminal names. */
  datatype Candidate = Candidate(
    sellingPointName: string,
    eptLabel: string,
    amountCents: int,
    currency: string,
    occurredAt: Timestamp,
    cardLast4: string,
    sourceRowHash: string)

  /** One row of the mock Worldline export, with `sha256` the hex digest of a text. */
  function ParseRow(row: Row, fromIso: string -> Option<Timestamp>, sha256: string -> string)
    : (r: Result<Candidate, ParseError>)
    ensures r.Ok? <==> HasColumns(row) && ParseInt(row["amount_cents"]).Some?
                       && fromIso(row["occurred_at"]).Some?
    ensures r.Ok? ==>
      && r.value.sellingPointName == row["selling_point"]
      && r.value.eptLabel == row["ept"]
      && Some(r.value.amountCents) == ParseInt(row["amount_cents"])
      && r.value.currency == row["currency"]
      && Some(r.value.occurredAt) == fromIso(row["occurred_at"])
      && r.value.cardLast4 == row["card_last4"]
      && r.value.sourceRowHash == sha256(FingerprintInput(row).value)
    ensures !HasColumns(row) ==> r.Err? && r.error.MissingColumn?
  {
    match FingerprintInput(row)
    case Err(e) => Err(e)
    case Ok(normalized) =>
      var hash := sha256(normalized);
      match ParseInt(row[AmountColumn])
      case None => Err(NotAnInteger(row[AmountColumn]))
      case Some(amount) =>
        match fromIso(row[OccurredAtColumn])
        case None => Err(NotATimestamp(row[OccurredAtColumn]))
        case Some(at) =>
          Ok(Candidate(row[SellingPointColumn], row[EptColumn], amount, row[CurrencyColumnName],
                       at, row[CardLast4Column], hash))
  }

  /** Rows with identical raw text in the six columns parse identically, hash included. */
  lemma ParseRowDeterministic(r1: Row, r2: Row, fromIso: string -> Option<Timestamp>, sha256: string -> string)
    requires forall c :: c in WorldlineColumns ==> (c in r1 <==> c in r2) && (c in r1 ==> r1[c] == r2[c])
    ensures ParseRow(r1, fromIso, sha256) == ParseRow(r2, fromIso, sha256)
  {
    RawFieldsAgree(r1, r2, WorldlineColumns);
  }

  /**
   * What a parse run yields: the candidates of the rows read so far and, if a
   * row failed, its error (the run stops there).
   */
  datatype ParseRun = ParseRun(candidates: seq<Candidate>, failure: Option<ParseError>)

  function ParseRows(rows: seq<Row>, fromIso: string -> Option<Timestamp>, sha256: string -> string)
    : (r: ParseRun)
    ensures |r.candidates| <= |rows|
    ensures forall i :: 0 <= i < |r.candidates| ==> ParseRow(rows[i], fromIso, sha256) == Ok(r.candidates[i])
    ensures r.failure.None? <==> |r.candidates| == |rows|
    ensures r.failure.Some? ==> ParseRow(rows[|r.candidates|], fromIso, sha256) == Err(r.failure.value)
  {
    if rows == [] then ParseRun([], None)
    else
      match ParseRow(rows[0], fromIso, sha256)
      case Err(e) => ParseRun([], Some(e))
      case Ok(c) =>
        var rest := ParseRows(rows[1..], fromIso, sha256);
        assert forall i :: 1 <= i < |rows| ==> rows[i] == rows[1..][i - 1];
        ParseRun([c] + rest.candidates, rest.failure)
  }

  /** When every row is well formed the run yields exactly one candidate per row, in row order. */
  lemma ParseEveryRow(rows: seq<Row>, fromIso: string -> Option<Timestamp>, sha256: string -> string)
    requires forall i :: 0 <= i < |rows| ==> ParseRow(rows[i], fromIso, sha256).Ok?
    ensures var r := ParseRows(rows, fromIso, sha256);
      && r.failure.None?
      && |r.candidates| == |rows|
      && forall i :: 0 <= i < |rows| ==> r.candidates[i] == ParseRow(rows[i], fromIso, sha256).value
  {
  }

  /** `parser.parse(file)`: one candidate per data row, in row order, until a row fails. */
  function Parse(p: Parser, rows: seq<Row>, fromIso: string -> Option<Timestamp>, sha256: string -> string)
    : (r: ParseRun)
    ensures p == WorldlineMock ==> r == ParseRows(rows, fromIso, sha256)
  {
    match p
    case WorldlineMock => ParseRows(rows, fromIso, sha256)
  }
}
