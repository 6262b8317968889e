/** The financial-statement scrapers `marketwatch_income_statement`, `marketwatch_balance_sheet`
    and `marketwatch_cash_flow`. The three share one body apart from the URL segment, so the
    model defines that body once, parameterised by the statement kind. */
module Financials {
  import opened Wrappers
  import opened Seqs
  import opened PyStrings

  datatype StatementKind = IncomeStatement | BalanceSheet | CashFlow

  /** The path segment of each statement's page. */
  function Segment(kind: StatementKind): string
  {
    match kind
    case IncomeStatement => "income"
    case BalanceSheet => "balance-sheet"
    case CashFlow => "cash-flow"
  }

  const StockBase := "https://www.marketwatch.com/investing/stock/"

  function AnnualUrl(ticker: string, kind: StatementKind): string
  {
    StockBase + ticker + "/financials/" + Segment(kind)
  }

  /** The two `if` statements that bind `page`. Any other period leaves `page` unbound, and its
      first use raises UnboundLocalError. */
  function PageUrl(ticker: string, kind: StatementKind, timePeriod: string): (r: Result<string, PyError>)
    ensures r.Success? <==> timePeriod == "annual" || timePeriod == "quarter"
    ensures r.Failure? ==> r.error == UnboundLocalError
  {
    if timePeriod == "annual" then Success(AnnualUrl(ticker, kind))
    else if timePeriod == "quarter" then Success(AnnualUrl(ticker, kind) + "/quarter")
    else Failure(UnboundLocalError)
  }

  /** The quarterly page sits one level below the annual page. */
  lemma QuarterBelowAnnual(ticker: string, kind: StatementKind)
    ensures PageUrl(ticker, kind, "quarter").Success? && PageUrl(ticker, kind, "annual").Success?
    ensures PageUrl(ticker, kind, "quarter").value == PageUrl(ticker, kind, "annual").value + "/quarter"
  {
  }

  lemma SuffixAfterPrefix(p: string, x: string, y: string)
    requires p + x == p + y
    ensures x == y
  {
    assert (p + x)[|p|..] == x;
    assert (p + y)[|p|..] == y;
  }

  /** For one ticker, different statements or periods never share a page. */
  lemma PageUrlInjective(ticker: string, k1: StatementKind, p1: string, k2: StatementKind, p2: string)
    requires PageUrl(ticker, k1, p1).Success? && PageUrl(ticker, k2, p2).Success?
    requires PageUrl(ticker, k1, p1).value == PageUrl(ticker, k2, p2).value
    ensures k1 == k2 && p1 == p2
  {
    var prefix := StockBase + ticker + "/financials/";
    var s1 := if p1 == "annual" then Segment(k1) else Segment(k1) + "/quarter";
    var s2 := if p2 == "annual" then Segment(k2) else Segment(k2) + "/quarter";
    assert PageUrl(ticker, k1, p1).value == prefix + s1;
    assert PageUrl(ticker, k2, p2).value == prefix + s2;
    SuffixAfterPrefix(prefix, s1, s2);
    assert |s1| == |s2|;
  }

  /** A `tr` element of a table body: its class attribute and its flattened text. */
  datatype TableRow = TableRow(classes: set<string>, text: string)

  /** The class the row selection asks for. */
  function RowClass(keyDataOnly: bool): string
  {
    if keyDataOnly then "is-highlighted" else "table__row"
  }

  /** `find_all('tr', class_=cls)` in each `element__body` div, concatenated in document order:
      the rows carrying the class, every one of them, in their original order. */
  function SelectRows(bodies: seq<seq<TableRow>>, cls: string): (rows: seq<TableRow>)
    ensures forall i :: 0 <= i < |rows| ==> cls in rows[i].classes
    ensures forall row :: row in Flatten(bodies) && cls in row.classes ==> row in rows
    ensures forall row: TableRow :: cls in row.classes ==> multiset(rows)[row] == multiset(Flatten(bodies))[row]
    ensures IsSubsequence(rows, Flatten(bodies))
  {
    var keep := (row: TableRow) => cls in row.classes;
    var all := Flatten(bodies);
    FilterCounts(all, keep);
    assert forall row :: row in all && keep(row) ==> multiset(Filter(all, keep))[row] > 0;
    Filter(all, keep)
  }

  /** Every row of every body that carries the class is selected, as many times as it occurs. */
  lemma SelectRowsComplete(bodies: seq<seq<TableRow>>, cls: string, b: nat, j: nat)
    requires b < |bodies| && j < |bodies[b]| && cls in bodies[b][j].classes
    ensures bodies[b][j] in SelectRows(bodies, cls)
    ensures multiset(SelectRows(bodies, cls))[bodies[b][j]] == multiset(Flatten(bodies))[bodies[b][j]]
  {
    FlattenHas(bodies, b, j);
  }

  /** SelectRows' contract determines the selection: any in-order choice of rows that keeps
      every copy of every row with the class, and nothing else, is that selection. */
  lemma SelectRowsUnique(bodies: seq<seq<TableRow>>, cls: string, rows: seq<TableRow>)
    requires forall i :: 0 <= i < |rows| ==> cls in rows[i].classes
    requires forall row: TableRow :: cls in row.classes ==> multiset(rows)[row] == multiset(Flatten(bodies))[row]
    requires IsSubsequence(rows, Flatten(bodies))
    ensures rows == SelectRows(bodies, cls)
  {
    FilterUnique(Flatten(bodies), (row: TableRow) => cls in row.classes, rows);
  }

  /** Python's `if '' in a: a.remove('')` followed by `if ' ' in a: a.remove(' ')`. */
  function DropBlanks(parts: seq<string>): (a: seq<string>)
    ensures IsSubsequence(a, parts)
    ensures |parts| - 2 <= |a|
  {
    var a1 := RemoveFirst(parts, "");
    var a2 := RemoveFirst(a1, " ");
    SubsequenceTrans(a2, a1, parts);
    a2
  }

  /** The list with the element at position `i` taken out. */
  function Without<T>(xs: seq<T>, i: nat): seq<T>
    requires i < |xs|
  {
    xs[..i] + xs[i + 1..]
  }

  /** The pieces DropBlanks removes are the first `''` and then the first `' '` of what is left;
      every later blank or single-space piece stays where it was. */
  lemma DropBlanksAt(parts: seq<string>)
    ensures var a1 := if "" in parts then Without(parts, IndexOf(parts, "")) else parts;
            DropBlanks(parts) == if " " in a1 then Without(a1, IndexOf(a1, " ")) else a1
  {
    if "" in parts {
      RemoveFirstAt(parts, "");
    }
    var a1 := RemoveFirst(parts, "");
    if " " in a1 {
      RemoveFirstAt(a1, " ");
    }
  }

  /** Exactly one blank and one single-space token are dropped, when present; any later
      blank or single-space tokens survive. */
  lemma DropBlanksCounts(parts: seq<string>)
    ensures multiset(DropBlanks(parts)) == multiset(parts) - multiset{""} - multiset{" "}
  {
    RemoveBothCounts(parts, "", " ");
  }

  /** A trailing blank piece after the first one survives, so the label is the real text. */
  lemma DropBlanksExample()
    ensures DropBlanks(["", "Revenue", ""]) == ["Revenue", ""]
    ensures DropBlanks([" ", "", "7", " "]) == ["7", " "]
  {
    DropBlanksAt(["", "Revenue", ""]);
    assert IndexOf(["", "Revenue", ""], "") == 0;
    DropBlanksAt([" ", "", "7", " "]);
    assert IndexOf([" ", "", "7", " "], "") == 1;
    assert IndexOf([" ", "7", " "], " ") == 0;
  }

  /** One `'\n\n'`-chunk of a row: split on `'\n'`, then drop the first `''` and the first `' '`. */
  function Tokens(chunk: string): (a: seq<string>)
    ensures IsSubsequence(a, Split(chunk, "\n"))
    ensures |Split(chunk, "\n")| - 2 <= |a|
  {
    DropBlanks(Split(chunk, "\n"))
  }

  /** The token groups of every chunk of one row's text, in order, empty groups included. */
  function ChunkTokens(text: string): (groups: seq<seq<string>>)
    ensures |groups| == |Split(text, "\n\n")|
  {
    var chunks := Split(text, "\n\n");
    seq(|chunks|, i requires 0 <= i < |chunks| => Tokens(chunks[i]))
  }

  /** Group `i` comes from the `i`-th `'\n\n'`-chunk: its `'\n'` pieces, in order, with at most
      two gone. */
  lemma ChunkTokensPieces(text: string, i: nat)
    requires i < |ChunkTokens(text)|
    ensures IsSubsequence(ChunkTokens(text)[i], Split(Split(text, "\n\n")[i], "\n"))
    ensures |Split(Split(text, "\n\n")[i], "\n")| - 2 <= |ChunkTokens(text)[i]|
  {
    var chunks := Split(text, "\n\n");
    assert ChunkTokens(text)[i] == Tokens(chunks[i]);
  }

  /** The groups one row contributes to `vals`: the non-empty token lists of its chunks. */
  function RowGroups(text: string): (groups: seq<seq<string>>)
    ensures forall i :: 0 <= i < |groups| ==> groups[i] != []
    ensures forall g :: g != [] ==> multiset(groups)[g] == multiset(ChunkTokens(text))[g]
    ensures IsSubsequence(groups, ChunkTokens(text))
  {
    FilterCounts(ChunkTokens(text), g => g != []);
    Filter(ChunkTokens(text), g => g != [])
  }

  /** RowGroups' contract determines the groups: the non-empty chunk groups, each copy kept,
      in order. */
  lemma RowGroupsUnique(text: string, groups: seq<seq<string>>)
    requires forall i :: 0 <= i < |groups| ==> groups[i] != []
    requires forall g :: g != [] ==> multiset(groups)[g] == multiset(ChunkTokens(text))[g]
    requires IsSubsequence(groups, ChunkTokens(text))
    ensures groups == RowGroups(text)
  {
    FilterUnique(ChunkTokens(text), g => g != [], groups);
  }

  /** `vals` after the nested loops: the groups of every selected row, row after row. */
  function Groups(rows: seq<TableRow>): (vals: seq<seq<string>>)
    ensures forall i :: 0 <= i < |vals| ==> vals[i] != []
  {
    if rows == [] then [] else RowGroups(rows[0].text) + Groups(rows[1..])
  }

  lemma {:induction false} GroupsAppend(a: seq<TableRow>, b: seq<TableRow>)
    ensures Groups(a + b) == Groups(a) + Groups(b)
  {
    if a == [] {
      assert a + b == b;
    } else {
      assert (a + b)[1..] == a[1..] + b;
      GroupsAppend(a[1..], b);
    }
  }

  /** The first `n` label/value pairs: the first token of group 2k and the whole of group 2k+1. */
  function LabelPairs(vals: seq<seq<string>>, n: nat): seq<(string, seq<string>)>
    requires 2 * n <= |vals|
    requires forall i :: 0 <= i < |vals| ==> vals[i] != []
  {
    seq(n, k requires 0 <= k < n => (vals[2 * k][0], vals[2 * k + 1]))
  }

  /** The pairing loop. An odd number of groups makes the last even index read past the end. */
  function Table(vals: seq<seq<string>>): (r: Result<map<string, seq<string>>, PyError>)
    requires forall i :: 0 <= i < |vals| ==> vals[i] != []
    ensures r.Failure? <==> |vals| % 2 == 1
    ensures r.Failure? ==> r.error == IndexError
    ensures r.Success? ==> |r.value| <= |vals| / 2
  {
    if |vals| % 2 == 1 then Failure(IndexError)
    else Success(LastWins(LabelPairs(vals, |vals| / 2)))
  }

  /** With an even number of groups the labels are exactly the first tokens of the
      even-indexed groups. */
  lemma TableKeys(vals: seq<seq<string>>, title: string)
    requires forall i :: 0 <= i < |vals| ==> vals[i] != []
    requires |vals| % 2 == 0
    ensures title in Table(vals).value <==> exists k :: 0 <= k < |vals| / 2 && vals[2 * k][0] == title
  {
    var pairs := LabelPairs(vals, |vals| / 2);
    LastWinsKeys(pairs, title);
    if exists k :: 0 <= k < |vals| / 2 && vals[2 * k][0] == title {
      var k :| 0 <= k < |vals| / 2 && vals[2 * k][0] == title;
      assert pairs[k].0 == title;
    }
  }

  /** A label maps to the group after its last occurrence as a label. */
  lemma TableValue(vals: seq<seq<string>>, k: nat)
    requires forall i :: 0 <= i < |vals| ==> vals[i] != []
    requires |vals| % 2 == 0 && k < |vals| / 2
    requires forall j :: k < j < |vals| / 2 ==> vals[2 * j][0] != vals[2 * k][0]
    ensures vals[2 * k][0] in Table(vals).value
    ensures Table(vals).value[vals[2 * k][0]] == vals[2 * k + 1]
  {
    var pairs := LabelPairs(vals, |vals| / 2);
    assert LastForKey(pairs, k);
    LastWinsValue(pairs, k);
  }

  /** Labels pair with the group that follows them; a repeated label keeps its last group. */
  lemma TableExample()
    ensures Table([["Sales"], ["100", "200"], ["Net Income"], ["7"]])
      == Success(map["Sales" := ["100", "200"], "Net Income" := ["7"]])
    ensures Table([["Sales"], ["1"], ["Sales"], ["2"]]) == Success(map["Sales" := ["2"]])
  {
    var v1: seq<seq<string>> := [["Sales"], ["100", "200"], ["Net Income"], ["7"]];
    var p1 := LabelPairs(v1, 2);
    assert p1 == [("Sales", ["100", "200"]), ("Net Income", ["7"])];
    assert p1[..1] == [("Sales", ["100", "200"])] && p1[..1][..0] == [];
    assert LastWins(p1[..1]) == map["Sales" := ["100", "200"]];
    assert LastWins(p1) == LastWins(p1[..1])["Net Income" := ["7"]];
    assert Table(v1) == Success(LastWins(p1));
    var v2: seq<seq<string>> := [["Sales"], ["1"], ["Sales"], ["2"]];
    var p2 := LabelPairs(v2, 2);
    assert p2 == [("Sales", ["1"]), ("Sales", ["2"])];
    assert p2[..1] == [("Sales", ["1"])] && p2[..1][..0] == [];
    assert LastWins(p2[..1]) == map["Sales" := ["1"]];
    assert LastWins(p2) == LastWins(p2[..1])["Sales" := ["2"]];
    assert Table(v2) == Success(LastWins(p2));
    assert map["Sales" := ["1"]]["Sales" := ["2"]] == map["Sales" := ["2"]];
  }

  /** The pairing loop as the source writes it: iterate over every index, act on the even ones,
      and let `vals[x + 1]` fail when it is out of range. */
  method BuildTable(vals: seq<seq<string>>) returns (r: Result<map<string, seq<string>>, PyError>)
    requires forall i :: 0 <= i < |vals| ==> vals[i] != []
    ensures r == Table(vals)
  {
    var data: map<string, seq<string>> := map[];
    var x := 0;
    while x < |vals|
      invariant 0 <= x <= |vals|
      invariant 2 * Paired(x) <= |vals|
      invariant data == LastWins(LabelPairs(vals, Paired(x)))
    {
      if x % 2 == 0 {
        if x + 1 >= |vals| {
          OddLength(x, |vals|);
          return Failure(IndexError);
        }
        StoreStep(vals, x);
        data := data[vals[x][0] := vals[x + 1]];
      } else {
        OddStep(x);
      }
      x := x + 1;
    }
    EvenLength(|vals|);
    return Success(data);
  }

  /** The number of even indices below `x`: the pairs the loop has stored on reaching `x`. */
  function Paired(x: nat): nat
  {
    (x + 1) / 2
  }

  /** At an even index the loop stores one more pair. */
  lemma StoreStep(vals: seq<seq<string>>, x: nat)
    requires forall i :: 0 <= i < |vals| ==> vals[i] != []
    requires x % 2 == 0 && x + 1 < |vals|
    ensures 2 * Paired(x + 1) <= |vals|
    ensures LastWins(LabelPairs(vals, Paired(x + 1)))
      == LastWins(LabelPairs(vals, Paired(x)))[vals[x][0] := vals[x + 1]]
  {
    var n := x / 2;
    assert 2 * n == x && Paired(x) == n && Paired(x + 1) == n + 1;
    PairsGrow(vals, n);
  }

  /** The parity facts the loop needs, kept in lemmas of their own so that the division by two
      stays out of the loop's proof. */
  lemma OddStep(x: nat)
    requires x % 2 == 1
    ensures Paired(x + 1) == Paired(x)
  {
  }

  lemma OddLength(x: nat, len: nat)
    requires x % 2 == 0 && x < len <= x + 1
    ensures len % 2 == 1
  {
  }

  lemma EvenLength(len: nat)
    requires 2 * Paired(len) <= len
    ensures len % 2 == 0 && Paired(len) == len / 2
  {
  }

  lemma PairsGrow(vals: seq<seq<string>>, n: nat)
    requires forall i :: 0 <= i < |vals| ==> vals[i] != []
    requires 2 * n + 2 <= |vals|
    ensures LastWins(LabelPairs(vals, n + 1))
      == LastWins(LabelPairs(vals, n))[vals[2 * n][0] := vals[2 * n + 1]]
  {
    var pairs := LabelPairs(vals, n + 1);
    assert pairs[..n] == LabelPairs(vals, n);
  }

  /** Everything after the download: select rows, tokenise them, pair the groups. */
  function Normalise(bodies: seq<seq<TableRow>>, keyDataOnly: bool): (r: Result<map<string, seq<string>>, PyError>)
    ensures r.Failure? <==> |Groups(SelectRows(bodies, RowClass(keyDataOnly)))| % 2 == 1
    ensures r.Failure? ==> r == Failure(IndexError)
  {
    Table(Groups(SelectRows(bodies, RowClass(keyDataOnly))))
  }

  /** One statement scraper; `fetch` stands for downloading and parsing a page into the rows of
      its `element__body` divs. The three scrapers differ only in `kind`, that is in the page
      they fetch: after the download they all run the same `Normalise`. */
  function Statement(kind: StatementKind, ticker: string, keyDataOnly: bool, timePeriod: string,
                     fetch: string -> seq<seq<TableRow>>): (r: Result<map<string, seq<string>>, PyError>)
    ensures timePeriod != "annual" && timePeriod != "quarter" ==> r == Failure(UnboundLocalError)
    ensures r.Failure? ==> r.error == UnboundLocalError || r.error == IndexError
    ensures PageUrl(ticker, kind, timePeriod).Success? ==>
      r == Normalise(fetch(PageUrl(ticker, kind, timePeriod).value), keyDataOnly)
  {
    match PageUrl(ticker, kind, timePeriod)
    case Failure(e) => Failure(e)
    case Success(url) => Normalise(fetch(url), keyDataOnly)
  }
}
