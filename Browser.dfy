/** The pure helpers of the two browser scripts. Both share the countdown's
    split of the remaining milliseconds, the search filter of the admin table,
    the row numbers, the CSV export and the home page's display offsets. The
    sort by id (newest first) is app.js's alone: public/app.js shows the
    server's order unsorted. */
module Browser {
  import opened Text
  import opened Records

  // ---------------------------------------------------------------------------
  // Countdown
  // ---------------------------------------------------------------------------

  const MsPerHour := 3600000
  const MsPerMinute := 60000
  const MsPerSecond := 1000

  /** Hours, minutes and seconds left before the deadline. */
  datatype Clock = Clock(hours: nat, minutes: nat, seconds: nat)

  /** The whole milliseconds a clock stands for. */
  function Millis(c: Clock): nat
  {
    c.hours * MsPerHour + c.minutes * MsPerMinute + c.seconds * MsPerSecond
  }

  /** The countdown arithmetic on `diff = DEADLINE - now` (whole milliseconds):
      nothing left once the deadline is reached; otherwise minutes and seconds
      below 60 and the clock short of diff by less than one second. */
  function Countdown(diff: int): (c: Clock)
    ensures diff <= 0 ==> c == Clock(0, 0, 0)
    ensures diff > 0 ==> c.minutes < 60 && c.seconds < 60 && Millis(c) <= diff < Millis(c) + MsPerSecond
  {
    if diff <= 0 then Clock(0, 0, 0)
    else
      var c := Clock(diff / MsPerHour, (diff % MsPerHour) / MsPerMinute, (diff % MsPerMinute) / MsPerSecond);
      CountdownArithmetic(diff);
      c
  }

  lemma CountdownArithmetic(diff: int)
    requires diff > 0
    ensures (diff % MsPerHour) / MsPerMinute < 60 && (diff % MsPerMinute) / MsPerSecond < 60
    ensures var total := (diff / MsPerHour) * MsPerHour + ((diff % MsPerHour) / MsPerMinute) * MsPerMinute
                         + ((diff % MsPerMinute) / MsPerSecond) * MsPerSecond;
            total <= diff < total + MsPerSecond
  {
    var h, r1 := diff / MsPerHour, diff % MsPerHour;
    assert diff == h * MsPerHour + r1;
    var m, r2 := r1 / MsPerMinute, r1 % MsPerMinute;
    assert r1 == m * MsPerMinute + r2;
    assert diff == (h * 60 + m) * MsPerMinute + r2;
    assert diff % MsPerMinute == r2;
    var s, r3 := r2 / MsPerSecond, r2 % MsPerSecond;
    assert r2 == s * MsPerSecond + r3;
  }

  lemma {:induction false} MulAtLeast(k: int, d: int)
    requires k >= 1 && d > 0
    ensures k * d >= d
    decreases k
  {
    if k > 1 {
      MulAtLeast(k - 1, d);
      assert k * d == (k - 1) * d + d;
    }
  }

  /** Euclidean division is determined by its quotient-remainder bounds. */
  lemma DivModUnique(x: int, d: int, q: int, r: int)
    requires d > 0 && 0 <= r < d && x == q * d + r
    ensures x / d == q && x % d == r
  {
    var k := q - x / d;
    assert k * d == x % d - r;
    if k > 0 {
      MulAtLeast(k, d);
    } else if k < 0 {
      MulAtLeast(-k, d);
    }
  }

  /** The split is the only clock with those bounds, so the bounds are a full
      description of what the countdown shows. */
  lemma CountdownUnique(diff: int, c: Clock)
    requires diff > 0 && c.minutes < 60 && c.seconds < 60
    requires Millis(c) <= diff < Millis(c) + MsPerSecond
    ensures c == Countdown(diff)
  {
    var e := diff - Millis(c);
    var r2 := c.seconds * MsPerSecond + e;
    var rest := c.minutes * MsPerMinute + r2;
    assert r2 < MsPerMinute;
    assert rest < MsPerHour;
    DivModUnique(diff, MsPerHour, c.hours, rest);
    DivModUnique(rest, MsPerMinute, c.minutes, r2);
    assert diff == (c.hours * 60 + c.minutes) * MsPerMinute + r2;
    DivModUnique(diff, MsPerMinute, c.hours * 60 + c.minutes, r2);
    DivModUnique(r2, MsPerSecond, c.seconds, e);
  }

  /** The three texts the countdown writes. */
  datatype ClockText = ClockText(hours: string, minutes: string, seconds: string)

  /** `String(n).padStart(2, '0')` */
  function TwoDigits(n: nat): string
  {
    PadStart(Decimal(n), 2, '0')
  }

  /** What the countdown shows: "00" three times once the deadline has
      passed, otherwise each part of the split padded to two digits. */
  function ShowClock(diff: int): ClockText
  {
    if diff <= 0 then ClockText("00", "00", "00")
    else
      var c := Countdown(diff);
      ClockText(TwoDigits(c.hours), TwoDigits(c.minutes), TwoDigits(c.seconds))
  }

  /** A two-digit field is a numeral of at least two digits, exactly two
      below one hundred, that reads back as n. */
  lemma TwoDigitsReadsBack(n: nat)
    ensures |TwoDigits(n)| >= 2 && (n < 100 ==> |TwoDigits(n)| == 2)
    ensures AllDigits(TwoDigits(n)) && ValueOf(TwoDigits(n)) == n
  {
    PaddedDecimalValue(n, 2);
    DecimalLength(n);
  }

  /** Each text is a numeral of at least two digits (exactly two for minutes
      and seconds) that reads back as the corresponding part of the split. */
  lemma ShowClockReadsBack(diff: int)
    ensures var t, c := ShowClock(diff), Countdown(diff);
      |t.hours| >= 2 && |t.minutes| == 2 && |t.seconds| == 2 &&
      AllDigits(t.hours) && AllDigits(t.minutes) && AllDigits(t.seconds) &&
      ValueOf(t.hours) == c.hours && ValueOf(t.minutes) == c.minutes && ValueOf(t.seconds) == c.seconds
  {
    var c := Countdown(diff);
    if diff <= 0 {
      assert ValueOf("00") == ValueOf("0") * 10;
    } else {
      TwoDigitsReadsBack(c.hours);
      TwoDigitsReadsBack(c.minutes);
      TwoDigitsReadsBack(c.seconds);
    }
  }

  /** `DEADLINE`, 2026-01-31 12:00 at UTC+7, in milliseconds since the epoch. */
  const Deadline := 1769835600000

  /** The countdown as shown at the instant `now` (milliseconds since the
      epoch, the page's clock). */
  function TimeLeft(now: int): ClockText
  {
    ShowClock(Deadline - now)
  }

  /** Within the last second before the deadline, and from it on, the
      countdown shows zero everywhere; one second before it, it shows the
      last second. */
  lemma TimeLeftAroundDeadline(now: int)
    ensures now > Deadline - MsPerSecond ==> TimeLeft(now) == ClockText("00", "00", "00")
    ensures now == Deadline - MsPerSecond ==> TimeLeft(now) == ClockText("00", "00", "01")
  {
    if Deadline - MsPerSecond < now < Deadline {
      var c := Countdown(Deadline - now);
      assert Millis(c) < MsPerSecond;
      assert c == Clock(0, 0, 0);
    }
  }

  // ---------------------------------------------------------------------------
  // Search filter and sort of the admin table
  // ---------------------------------------------------------------------------

  /** A record matches a lower-cased query when its lower-cased name, email
      or wallet includes it. */
  predicate Matches(s: Submission, query: string)
  {
    Contains(Lower(s.name), query) || Contains(Lower(s.email), query) || Contains(Lower(s.wallet), query)
  }

  /** `subs.filter(s => Matches(s, query))` */
  function Keep(subs: seq<Submission>, query: string): (r: seq<Submission>)
    ensures forall x :: x in r <==> x in subs && Matches(x, query)
    ensures forall x :: multiset(r)[x] == if Matches(x, query) then multiset(subs)[x] else 0
    ensures IsSubseq(r, subs)
    decreases |subs|
  {
    if subs == [] then []
    else
      assert subs == [subs[0]] + subs[1..];
      var rest := Keep(subs[1..], query);
      if Matches(subs[0], query) then [subs[0]] + rest else rest
  }

  /** The table's search: an empty query keeps the list as it is, any other
      keeps, in order, the records matching the lower-cased query. */
  function SearchFilter(subs: seq<Submission>, searchQuery: string): (r: seq<Submission>)
    ensures searchQuery == "" ==> r == subs
    ensures searchQuery != "" ==> forall x :: x in r <==> x in subs && Matches(x, Lower(searchQuery))
    ensures searchQuery != "" ==>
      forall x :: multiset(r)[x] == if Matches(x, Lower(searchQuery)) then multiset(subs)[x] else 0
    ensures IsSubseq(r, subs)
  {
    if searchQuery == "" then SubseqRefl(subs); subs else Keep(subs, Lower(searchQuery))
  }

  lemma {:induction false} SubseqRefl(s: seq<Submission>)
    ensures IsSubseq(s, s)
    decreases |s|
  {
    if s != [] {
      SubseqRefl(s[1..]);
    }
  }

  /** The guard on an empty query changes nothing: the empty string occurs
      in every text, so filtering with it would keep every record too. */
  lemma {:induction false} EmptyQueryKeepsAll(subs: seq<Submission>)
    ensures Keep(subs, "") == subs
    decreases |subs|
  {
    if subs != [] {
      ContainsEmpty(Lower(subs[0].name));
      EmptyQueryKeepsAll(subs[1..]);
    }
  }

  /** Ids never increase from front to back (ties allowed). */
  predicate NewestFirst(subs: seq<Submission>)
  {
    forall i, j :: 0 <= i < j < |subs| ==> subs[i].id >= subs[j].id
  }

  /** Places x in front of the first record whose id is not larger than x's,
      so x goes before records of an equal id. */
  function Insert(x: Submission, sorted: seq<Submission>): (r: seq<Submission>)
    requires NewestFirst(sorted)
    ensures NewestFirst(r)
    ensures multiset(r) == multiset(sorted) + multiset{x}
    decreases |sorted|
  {
    if sorted == [] || x.id >= sorted[0].id then
      [x] + sorted
    else
      var rest := Insert(x, sorted[1..]);
      InsertBelowHead(x, sorted, rest);
      assert sorted == [sorted[0]] + sorted[1..];
      [sorted[0]] + rest
  }

  /** What x is inserted into, behind the head of a newest-first list, stays
      behind that head. */
  lemma InsertBelowHead(x: Submission, sorted: seq<Submission>, rest: seq<Submission>)
    requires NewestFirst(sorted) && sorted != [] && x.id < sorted[0].id
    requires NewestFirst(rest) && multiset(rest) == multiset(sorted[1..]) + multiset{x}
    ensures NewestFirst([sorted[0]] + rest)
  {
    var r := [sorted[0]] + rest;
    forall j | 1 <= j < |r| ensures sorted[0].id >= r[j].id {
      var y := r[j];
      assert y == rest[j - 1];
      assert y in multiset(rest);
      if y != x {
        assert y in multiset(sorted[1..]);
        var k :| 0 <= k < |sorted[1..]| && sorted[1..][k] == y;
        assert sorted[k + 1] == y;
      }
    }
    assert forall i :: 1 <= i < |r| ==> r[i] == rest[i - 1];
  }

  /** `subs.sort((a, b) => b.id - a.id)`: a stable sort, highest id first. */
  function SortNewestFirst(subs: seq<Submission>): (r: seq<Submission>)
    ensures NewestFirst(r)
    ensures multiset(r) == multiset(subs)
    decreases |subs|
  {
    if subs == [] then []
    else
      assert subs == [subs[0]] + subs[1..];
      Insert(subs[0], SortNewestFirst(subs[1..]))
  }

  /** A list that is already newest first comes out of the sort unchanged. */
  lemma {:induction false} SortKeepsNewestFirst(subs: seq<Submission>)
    requires NewestFirst(subs)
    ensures SortNewestFirst(subs) == subs
    decreases |subs|
  {
    if subs != [] {
      SortKeepsNewestFirst(subs[1..]);
    }
  }

  /** app.js's table order: filter by the query, then sort newest first. */
  function RenderOrder(subs: seq<Submission>, searchQuery: string): seq<Submission>
  {
    SortNewestFirst(SearchFilter(subs, searchQuery))
  }

  /** The table lists, highest id first, exactly the records the query
      matches (all records for an empty query), each as often as stored. */
  lemma RenderOrderSpec(subs: seq<Submission>, searchQuery: string)
    ensures NewestFirst(RenderOrder(subs, searchQuery))
    ensures searchQuery == "" ==> multiset(RenderOrder(subs, searchQuery)) == multiset(subs)
    ensures searchQuery != "" ==> forall x :: x in RenderOrder(subs, searchQuery) <==> x in subs && Matches(x, Lower(searchQuery))
    ensures searchQuery != "" ==> forall x ::
      multiset(RenderOrder(subs, searchQuery))[x] == if Matches(x, Lower(searchQuery)) then multiset(subs)[x] else 0
  {
    var f := SearchFilter(subs, searchQuery);
    assert forall x :: x in RenderOrder(subs, searchQuery) <==> x in multiset(f);
  }

  // ---------------------------------------------------------------------------
  // Row numbers
  // ---------------------------------------------------------------------------

  /** The number column of an n-row table: row i shows n - i. */
  function RowLabels(n: nat): (r: seq<nat>)
  {
    seq(n, i requires 0 <= i < n => n - i)
  }

  /** The labels run from n down to 1, one per row, each exactly once. */
  lemma RowLabelsRange(n: nat)
    ensures |RowLabels(n)| == n
    ensures n > 0 ==> RowLabels(n)[0] == n && RowLabels(n)[n - 1] == 1
    ensures forall i, j :: 0 <= i < j < n ==> RowLabels(n)[i] > RowLabels(n)[j]
    ensures forall k :: 1 <= k <= n <==> k in RowLabels(n)
  {
    forall k | 1 <= k <= n ensures k in RowLabels(n) {
      assert RowLabels(n)[n - k] == k;
    }
  }

  // ---------------------------------------------------------------------------
  // CSV export
  // ---------------------------------------------------------------------------

  const Header: seq<string> := ["No", "Nama", "Email", "E-Wallet", "Status", "Tanggal"]

  function StatusText(paid: bool): string
  {
    if paid then "Lunas" else "Belum Bayar"
  }

  /** The cells of the i-th record (counting from 0); `date` is the locale
      text of its time stamp. */
  function Row(i: nat, s: Submission, date: string): seq<string>
  {
    [Decimal(i + 1), s.name, s.email, s.wallet, StatusText(s.paid), date]
  }

  /** `"${cell}"`, with no escaping of quotes inside. */
  function Quote(cell: string): string
  {
    "\"" + cell + "\""
  }

  /** `row.map(cell => Quote(cell)).join(',')` */
  function Line(cells: seq<string>): string
  {
    Join(seq(|cells|, k requires 0 <= k < |cells| => Quote(cells[k])), ",")
  }

  /** The header line, then one line per record in stored order. */
  function CsvLines(subs: seq<Submission>, formatDate: string -> string): seq<string>
  {
    [Line(Header)] + seq(|subs|, i requires 0 <= i < |subs| => Line(Row(i, subs[i], formatDate(subs[i].created))))
  }

  /** The export: nothing for an empty list (the script shows a toast
      instead), otherwise the lines joined by newlines. */
  function ExportCsv(subs: seq<Submission>, formatDate: string -> string): Option<string>
  {
    if subs == [] then None else Some(Join(CsvLines(subs, formatDate), "\n"))
  }

  /** Reads one exported line back into its cells: a quoted cell, then either
      the end or a comma and the next line part. */
  function ParseLine(s: string): Option<seq<string>>
    decreases |s|
  {
    if s == [] || s[0] != '"' then None
    else
      var body := s[1..];
      var k := FirstIndex(body, '"');
      if k == |body| then None
      else
        var rest := body[k + 1..];
        if rest == [] then Some([body[..k]])
        else if rest[0] != ',' then None
        else
          match ParseLine(rest[1..])
          case None => None
          case Some(more) => Some([body[..k]] + more)
  }

  /** A cell survives the export unchanged when it holds neither a double
      quote nor a newline. */
  predicate Plain(cell: string)
  {
    '"' !in cell && '\n' !in cell
  }

  lemma FirstIndexAfter(a: string, c: char, b: string)
    requires c !in a
    ensures FirstIndex(a + [c] + b, c) == |a|
  {
    var s := a + [c] + b;
    var k := FirstIndex(s, c);
    assert s[|a|] == c;
    assert forall i :: 0 <= i < |a| ==> s[i] == a[i];
  }

  /** How ParseLine takes a quoted cell off the front of a line. */
  lemma ParseFirstCell(c0: string, rest: string)
    requires '"' !in c0
    ensures rest == [] ==> ParseLine(Quote(c0) + rest) == Some([c0])
    ensures rest != [] && rest[0] == ',' ==>
      ParseLine(Quote(c0) + rest) == match ParseLine(rest[1..]) case None => None case Some(more) => Some([c0] + more)
  {
    var s := Quote(c0) + rest;
    var body := s[1..];
    assert body == c0 + ['"'] + rest;
    FirstIndexAfter(c0, '"', rest);
    assert body[..|c0|] == c0;
    assert body[|c0| + 1..] == rest;
  }

  /** A line of several cells is the first quoted cell, a comma, and the line
      of the others. */
  lemma LineCons(cells: seq<string>)
    requires |cells| >= 1
    ensures |cells| == 1 ==> Line(cells) == Quote(cells[0])
    ensures |cells| > 1 ==> Line(cells) == Quote(cells[0]) + "," + Line(cells[1..])
  {
    var quoted := seq(|cells|, k requires 0 <= k < |cells| => Quote(cells[k]));
    assert quoted[1..] == seq(|cells| - 1, k requires 0 <= k < |cells| - 1 => Quote(cells[1..][k]));
  }

  /** A line of one plain cell reads back as that cell. */
  lemma LineOfOne(cells: seq<string>)
    requires |cells| == 1 && Plain(cells[0])
    ensures ParseLine(Line(cells)) == Some(cells)
  {
    LineCons(cells);
    var c0 := cells[0];
    ParseFirstCell(c0, []);
    assert Quote(c0) + [] == Quote(c0) == Line(cells);
    assert cells == [c0];
  }

  /** A plain quoted cell and a comma in front of a text that reads back
      give a text that reads back with that cell in front. */
  lemma ParseCons(c0: string, text: string, tail: seq<string>)
    requires '"' !in c0 && ParseLine(text) == Some(tail)
    ensures ParseLine(Quote(c0) + "," + text) == Some([c0] + tail)
  {
    var rest := "," + text;
    assert Quote(c0) + "," + text == Quote(c0) + rest;
    assert rest[1..] == text;
    ParseFirstCell(c0, rest);
  }

  /** A plain first cell in front of a line that reads back gives a line
      that reads back. */
  lemma LineOfMore(cells: seq<string>)
    requires |cells| > 1 && Plain(cells[0])
    requires ParseLine(Line(cells[1..])) == Some(cells[1..])
    ensures ParseLine(Line(cells)) == Some(cells)
  {
    LineCons(cells);
    ParseCons(cells[0], Line(cells[1..]), cells[1..]);
    assert [cells[0]] + cells[1..] == cells;
  }

  /** One exported line reads back as its cells. */
  lemma {:induction false} LineReadsBack(cells: seq<string>)
    requires |cells| >= 1
    requires forall k :: 0 <= k < |cells| ==> Plain(cells[k])
    ensures ParseLine(Line(cells)) == Some(cells)
    decreases |cells|
  {
    if |cells| == 1 {
      LineOfOne(cells);
    } else {
      assert forall k :: 0 <= k < |cells| - 1 ==> cells[1..][k] == cells[k + 1];
      LineReadsBack(cells[1..]);
      LineOfMore(cells);
    }
  }

  lemma {:induction false} JoinAvoids(parts: seq<string>, sep: string, c: char)
    requires c !in sep
    requires forall k :: 0 <= k < |parts| ==> c !in parts[k]
    ensures c !in Join(parts, sep)
    decreases |parts|
  {
    if |parts| > 1 {
      JoinAvoids(parts[1..], sep, c);
    }
  }

  lemma DecimalPlain(n: nat)
    ensures Plain(Decimal(n))
  {
    var d := Decimal(n);
    assert forall i :: 0 <= i < |d| ==> IsDigit(d[i]);
  }

  lemma LineHasNoNewline(cells: seq<string>)
    requires forall k :: 0 <= k < |cells| ==> Plain(cells[k])
    ensures '\n' !in Line(cells)
  {
    var quoted := seq(|cells|, k requires 0 <= k < |cells| => Quote(cells[k]));
    forall k | 0 <= k < |quoted| ensures '\n' !in quoted[k] {
      assert quoted[k] == "\"" + cells[k] + "\"";
    }
    JoinAvoids(quoted, ",", '\n');
  }

  /** One record's line reads back as its cells, holds no newline, and its
      first cell is the numeral of i + 1. */
  lemma RowReadsBack(i: nat, s: Submission, date: string)
    requires Plain(s.name) && Plain(s.email) && Plain(s.wallet) && Plain(date)
    ensures ParseLine(Line(Row(i, s, date))) == Some(Row(i, s, date))
    ensures '\n' !in Line(Row(i, s, date))
    ensures ValueOf(Row(i, s, date)[0]) == i + 1
  {
    var row := Row(i, s, date);
    DecimalPlain(i + 1);
    DecimalRoundTrip(i + 1);
    assert forall k :: 0 <= k < |row| ==> Plain(row[k]);
    LineReadsBack(row);
    LineHasNoNewline(row);
  }

  /** Splitting the export at its newlines gives the header and then one line
      per record, numbered from 1 in stored order, each reading back as that
      record's cells, provided no exported text holds a quote or a newline. */
  lemma CsvReadsBack(subs: seq<Submission>, formatDate: string -> string)
    requires subs != []
    requires forall i :: 0 <= i < |subs| ==>
      Plain(subs[i].name) && Plain(subs[i].email) && Plain(subs[i].wallet) && Plain(formatDate(subs[i].created))
    ensures ExportCsv(subs, formatDate).Some?
    ensures var lines := Split(ExportCsv(subs, formatDate).value, '\n');
      |lines| == |subs| + 1 &&
      ParseLine(lines[0]) == Some(Header) &&
      forall i :: 0 <= i < |subs| ==> ParseLine(lines[i + 1]) == Some(Row(i, subs[i], formatDate(subs[i].created)))
    ensures forall i :: 0 <= i < |subs| ==> ValueOf(Row(i, subs[i], formatDate(subs[i].created))[0]) == i + 1
  {
    var lines := CsvLines(subs, formatDate);
    assert forall k :: 0 <= k < |Header| ==> Plain(Header[k]);
    LineReadsBack(Header);
    LineHasNoNewline(Header);
    forall i | 0 <= i < |subs|
      ensures ParseLine(lines[i + 1]) == Some(Row(i, subs[i], formatDate(subs[i].created)))
      ensures '\n' !in lines[i + 1]
      ensures ValueOf(Row(i, subs[i], formatDate(subs[i].created))[0]) == i + 1
    {
      assert lines[i + 1] == Line(Row(i, subs[i], formatDate(subs[i].created)));
      RowReadsBack(i, subs[i], formatDate(subs[i].created));
    }
    SplitJoin(lines, '\n');
    assert Join(lines, "\n") == Join(lines, ['\n']);
  }

  // ---------------------------------------------------------------------------
  // Home page figures
  // ---------------------------------------------------------------------------

  const BaseAccounts := 1500
  const BaseContributors := 50

  datatype HomeFigures = HomeFigures(accounts: int, contributors: int)

  /** The home page's counters: the real figures plus fixed offsets. */
  function HomeFiguresOf(st: Stats): HomeFigures
  {
    HomeFigures(st.totalAccounts + BaseAccounts, st.totalContributors + BaseContributors)
  }

  /** The page shows the number of records plus 1500 and the number of
      distinct lower-cased names plus 50; so the contributor figure never
      falls below its offset, exceeds it once anything is stored, and grows
      over it by no more than the account figure grows over its own offset:
      real contributors never outnumber real accounts. */
  lemma HomeFiguresBounds(subs: seq<Submission>)
    ensures var f := HomeFiguresOf(ComputeStats(subs));
      f.accounts == |subs| + BaseAccounts &&
      f.contributors == |LowerNames(subs)| + BaseContributors &&
      BaseContributors <= f.contributors &&
      f.contributors - BaseContributors <= f.accounts - BaseAccounts &&
      (subs != [] ==> f.contributors > BaseContributors)
  {
  }
}
