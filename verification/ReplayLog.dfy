/** The replay log: pedigrees are printed with underscores between the ranks, outermost rank
    first, and read back to be compared with the pedigrees of a later run. */
module ReplayLog {

  // The ranks of a pedigree chain, from the innermost node to the root.
  type Chain = c: seq<nat> | c != [] witness [0]

  const BUFF_SIZE := 512

  // strtol stops at the largest 64-bit signed integer.
  const LONG_MAX := 0x7FFF_FFFF_FFFF_FFFF

  // ---------------------------------------------------------------------------
  // Printing
  // ---------------------------------------------------------------------------

  function Digit(d: nat): char
    requires d < 10
  {
    '0' + d as char
  }

  predicate IsDigit(c: char) {
    '0' <= c <= '9'
  }

  function Decimal(n: nat): (s: string)
    ensures s != [] && forall i :: 0 <= i < |s| ==> IsDigit(s[i])
  {
    if n < 10 then [Digit(n)] else Decimal(n / 10) + [Digit(n % 10)]
  }

  // `walk_pedigree_nodes`: the parents first, then the node itself.
  function Print(c: Chain): string {
    if |c| == 1 then Decimal(c[0]) else Print(c[1..]) + "_" + Decimal(c[0])
  }

  // ---------------------------------------------------------------------------
  // Reading
  // ---------------------------------------------------------------------------

  function DigitValue(c: char): nat
    requires IsDigit(c)
  {
    c as nat - '0' as nat
  }

  // The value of a run of digits.
  function Value(s: string): nat
    requires forall i :: 0 <= i < |s| ==> IsDigit(s[i])
  {
    if s == [] then 0 else 10 * Value(s[..|s| - 1]) + DigitValue(s[|s| - 1])
  }

  // The end of the run of digits from `p`.
  function DigitsEnd(s: string, p: nat): (end: nat)
    requires p <= |s|
    ensures p <= end <= |s| && forall i :: p <= i < end ==> IsDigit(s[i])
    ensures end < |s| ==> !IsDigit(s[end])
    decreases |s| - p
  {
    if p < |s| && IsDigit(s[p]) then DigitsEnd(s, p + 1) else p
  }

  function Saturate(n: nat): nat {
    if n > LONG_MAX then LONG_MAX else n
  }

  // strtol on a text of digits: the value, and where reading stopped.
  function StrToL(s: string, p: nat): (nat, nat)
    requires p <= |s|
  {
    var end := DigitsEnd(s, p);
    (Saturate(Value(s[p..end])), end)
  }

  // The digits are the usual ones, printed and read.
  lemma DigitText(d: nat)
    requires d < 10
    ensures Digit(d) == "0123456789"[d] && IsDigit(Digit(d)) && DigitValue(Digit(d)) == d
  {
  }

  // No rank is printed with a leading zero, except 0 itself.
  lemma {:induction false} NoLeadingZero(n: nat)
    ensures Decimal(n)[0] == '0' <==> n == 0
    ensures n == 0 ==> Decimal(n) == "0"
  {
    if n >= 10 {
      NoLeadingZero(n / 10);
      assert Decimal(n)[0] == Decimal(n / 10)[0];
    } else {
      DigitText(n);
    }
  }

  lemma {:induction false} DecimalValue(n: nat)
    ensures Value(Decimal(n)) == n
  {
    if n >= 10 {
      var s := Decimal(n);
      DecimalValue(n / 10);
      assert s[..|s| - 1] == Decimal(n / 10);
      assert s[|s| - 1] == Digit(n % 10);
    } else {
      assert Decimal(n)[..0] == [];
    }
  }

  lemma {:induction false} EndOfDigits(s: string, p: nat, q: nat)
    requires p <= q <= |s| && (forall i :: p <= i < q ==> IsDigit(s[i])) && (q < |s| ==> !IsDigit(s[q]))
    ensures DigitsEnd(s, p) == q
    decreases q - p
  {
    if p < q {
      EndOfDigits(s, p + 1, q);
    }
  }

  // The ranks as they are read back, outermost first.
  ghost function Ranks(c: Chain): seq<nat> {
    if |c| == 1 then [Saturate(c[0])] else Ranks(c[1..]) + [Saturate(c[0])]
  }

  lemma {:induction false} RanksAt(c: Chain, i: nat)
    requires i < |c|
    ensures |Ranks(c)| == |c| && Ranks(c)[|c| - 1 - i] == Saturate(c[i])
  {
    if |c| > 1 {
      if i > 0 {
        RanksAt(c[1..], i - 1);
      } else {
        RanksAt(c[1..], 0);
      }
    }
  }

  // Where the k-th term, counted from the outermost, starts in the text.
  ghost function Start(c: Chain, k: nat): nat
    requires k <= |c|
  {
    if k == 0 then 0 else |Print(c[|c| - k..])| + 1
  }

  lemma {:induction false} PrintLength(c: Chain)
    ensures |Print(c)| >= 2 * |c| - 1
  {
    if |c| > 1 {
      PrintLength(c[1..]);
    }
  }

  // The text up to the end of term `k` is the print of the outer `k + 1` nodes.
  lemma {:induction false} PrintPrefix(c: Chain, k: nat)
    requires k < |c|
    ensures var t := Print(c[|c| - 1 - k..]);
            && |t| <= |Print(c)| && Print(c)[..|t|] == t
            && (|t| == |Print(c)| <==> k + 1 == |c|)
            && (k + 1 < |c| ==> Print(c)[|t|] == '_')
  {
    if k + 1 == |c| {
      assert c[0..] == c;
    } else {
      PrintPrefix(c[1..], k);
      assert c[1..][|c[1..]| - 1 - k..] == c[|c| - 1 - k..];
      PrintLength(c);
      assert Print(c) == Print(c[1..]) + "_" + Decimal(c[0]);
    }
  }

  // Reading at the start of term `k` gives the rank of that node and stops behind it.
  lemma TermAt(c: Chain, k: nat)
    requires k < |c|
    ensures var t := Print(c[|c| - 1 - k..]);
            && Start(c, k) <= |t| <= |Print(c)|
            && StrToL(Print(c), Start(c, k)) == (Saturate(c[|c| - 1 - k]), |t|)
            && (|t| == |Print(c)| <==> k + 1 == |c|)
  {
    var s, d, rank := Print(c), c[|c| - 1 - k..], c[|c| - 1 - k];
    var t := Print(d);
    PrintPrefix(c, k);
    if k > 0 {
      assert d[1..] == c[|c| - k..];
    }
    var p := Start(c, k);
    assert t[p..] == Decimal(rank);
    assert s[p..|t|] == t[p..];
    forall i | p <= i < |t| ensures IsDigit(s[i]) {
      assert s[i] == t[p..][i - p];
    }
    EndOfDigits(s, p, |t|);
    DecimalValue(rank);
  }

  // The outermost `k` ranks.
  ghost function FirstRanks(c: Chain, k: nat): seq<nat>
    requires k <= |c|
  {
    if k == 0 then [] else Ranks(c[|c| - k..])
  }

  lemma RanksNext(c: Chain, k: nat)
    requires k < |c|
    ensures FirstRanks(c, k + 1) == FirstRanks(c, k) + [Saturate(c[|c| - 1 - k])]
  {
    if k > 0 {
      assert c[|c| - 1 - k..][1..] == c[|c| - k..];
    }
  }

  /** A log entry. */
  datatype Kind = Unknown | Steal | Sync | Orphaned | Last

  datatype Entry = Entry(kind: Kind, reversePedigree: seq<nat>, value: int)

  // The terms of a printed pedigree, outermost first. The buffer is large enough for any
  // printed pedigree that fits the text buffer.
  method ReadTerms(pedigree: string, ghost c: Chain) returns (terms: array<nat>, len: nat)
    requires pedigree == Print(c) && |pedigree| < BUFF_SIZE
    ensures len == |c| <= terms.Length && terms[..len] == Ranks(c) && fresh(terms)
  {
    terms := new nat[BUFF_SIZE / 2];
    var p := 0;
    len := 0;
    PrintLength(c);
    assert c[0..] == c;
    while true
      invariant len < |c| <= terms.Length && p == Start(c, len) <= |pedigree|
      invariant terms[..len] == FirstRanks(c, len)
      decreases |c| - len
    {
      TermAt(c, len);
      RanksNext(c, len);
      var (term, end) := StrToL(pedigree, p);
      terms[len] := term;
      len := len + 1;
      if end == |pedigree| {
        break;
      }
      p := end + 1;
    }
  }

  method Reverse(terms: array<nat>, len: nat) returns (rev: seq<nat>)
    requires len <= terms.Length
    ensures |rev| == len && forall i :: 0 <= i < len ==> rev[i] == terms[..len][len - 1 - i]
  {
    var a := new nat[len];
    var n := 0;
    while n < len
      invariant n <= len && forall i :: 0 <= i < n ==> a[i] == terms[len - 1 - i]
    {
      a[n] := terms[len - 1 - n];
      n := n + 1;
    }
    rev := a[..];
  }

  // What is left of a number in 16 bits.
  function Int16(n: int): (r: int)
    ensures -0x8000 <= r < 0x8000 && (n - r) % 0x1_0000 == 0
  {
    (n + 0x8000) % 0x1_0000 - 0x8000
  }

  lemma Int16Same(n: int)
    ensures Int16(n) == n <==> -0x8000 <= n < 0x8000
  {
  }

  // The entry for a record with the pedigree `c`: the victim of a steal is cut to 16 bits, and the
  // ranks are capped by what strtol can return.
  ghost predicate LoadedAs(e: Entry, name: string, value: int, c: Chain) {
    && (name == "Steal" || name == "Sync" || name == "Orphaned")
    && (name == "Steal" ==> e.kind == Steal && e.value == Int16(value))
    && (name == "Sync" ==> e.kind == Sync && e.value == -1)
    && (name == "Orphaned" ==> e.kind == Orphaned && e.value == -1)
    && |e.reversePedigree| == |c| && forall i :: 0 <= i < |c| ==> e.reversePedigree[i] == Saturate(c[i])
  }

  /** Reads a record whose pedigree was printed. */
  method Load(name: string, pedigree: string, value: int, ghost c: Chain) returns (ok: bool, e: Entry)
    requires pedigree == Print(c) && |pedigree| < BUFF_SIZE
    ensures ok <==> name == "Steal" || name == "Sync" || name == "Orphaned"
    ensures !ok ==> e.kind == Unknown && e.value == -1
    ensures ok ==> LoadedAs(e, name, value, c)
    ensures name == "Steal" ==> e.kind == Steal && e.value == Int16(value)
    ensures name == "Sync" ==> e.kind == Sync && e.value == -1
    ensures name == "Orphaned" ==> e.kind == Orphaned && e.value == -1
  {
    ok, e := true, Entry(Unknown, [], -1);
    if name == "Steal" {
      e := e.(kind := Steal, value := Int16(value));
    } else if name == "Sync" {
      e := e.(kind := Sync);
    } else if name == "Orphaned" {
      e := e.(kind := Orphaned);
    } else {
      return false, e;
    }
    var terms, len := ReadTerms(pedigree, c);
    var rev := Reverse(terms, len);
    forall i: nat | i < |c| ensures rev[i] == Saturate(c[i]) {
      RanksAt(c, i);
    }
    e := e.(reversePedigree := rev);
  }

  // What is written to the log: the victim of a steal, -1 with other records.
  datatype Record = Record(name: string, pedigree: string, value: int)

  function RecordSteal(c: Chain, victim: int): Record {
    Record("Steal", Print(c), victim)
  }

  function RecordSync(c: Chain): Record {
    Record("Sync", Print(c), -1)
  }

  function RecordOrphaned(c: Chain): Record {
    Record("Orphaned", Print(c), -1)
  }

  /** What has been recorded for a steal, a sync or an orphaned frame is loaded as such. */
  method Reload(c: Chain, victim: int) returns (steal: Entry, sync: Entry, orphaned: Entry)
    requires |Print(c)| < BUFF_SIZE
    ensures steal.kind == Steal && sync.kind == Sync && orphaned.kind == Orphaned
    ensures LoadedAs(steal, "Steal", victim, c) && LoadedAs(sync, "Sync", -1, c) && LoadedAs(orphaned, "Orphaned", -1, c)
  {
    var ok;
    var r := RecordSteal(c, victim);
    ok, steal := Load(r.name, r.pedigree, r.value, c);
    r := RecordSync(c);
    ok, sync := Load(r.name, r.pedigree, r.value, c);
    r := RecordOrphaned(c);
    ok, orphaned := Load(r.name, r.pedigree, r.value, c);
  }

  // An entry matches the pedigree `q` of a running strand; the victim matters for steals only.
  ghost predicate Matches(e: Entry, kind: Kind, q: seq<nat>, victim: int) {
    e.kind == kind && (kind == Steal ==> victim == e.value) && q == e.reversePedigree
  }

  method Match(e: Entry, kind: Kind, q: seq<nat>, victim: int) returns (r: bool)
    ensures r <==> Matches(e, kind, q, victim)
    ensures r <==> e.kind == kind && (kind == Steal ==> victim == e.value) && q == e.reversePedigree
  {
    if kind != e.kind || (kind == Steal && victim != e.value) {
      return false;
    }
    var i := 0;
    while i < |q| && i < |e.reversePedigree|
      invariant i <= |q| && i <= |e.reversePedigree| && q[..i] == e.reversePedigree[..i]
    {
      if q[i] != e.reversePedigree[i] {
        return false;
      }
      i := i + 1;
    }
    r := i == |q| && i == |e.reversePedigree|;
    assert r ==> q[..i] == q && e.reversePedigree[..i] == e.reversePedigree;
  }

  ghost predicate Representable(c: Chain) {
    forall i :: 0 <= i < |c| ==> c[i] <= LONG_MAX
  }

  /** The round trip: an entry read back from a record matches exactly the recorded pedigree and
      victim if and only if no rank exceeds what strtol can return and the number of the victim fits
      16 bits. Ranks are 64-bit unsigned, so this is a restriction. */
  lemma RoundTrip(e: Entry, name: string, value: int, c: Chain)
    requires LoadedAs(e, name, value, c)
    ensures (forall q: seq<nat> :: Matches(e, e.kind, q, value) <==> q == c) <==>
            Representable(c) && (e.kind == Steal ==> -0x8000 <= value < 0x8000)
  {
    var own: seq<nat> := c;
    Int16Same(value);
    if !Representable(c) {
      var i :| 0 <= i < |c| && c[i] > LONG_MAX;
      assert e.reversePedigree[i] != own[i];
      assert !Matches(e, e.kind, own, value);
    } else {
      assert e.reversePedigree == c;
      if e.kind == Steal && Int16(value) != value {
        assert !Matches(e, e.kind, own, value);
      }
    }
  }

  /** A rank that does not survive: 2^63 is read back as 2^63 - 1. */
  lemma LostRank()
    ensures StrToL(Print([LONG_MAX + 1]), 0).0 == LONG_MAX
  {
    var c: Chain := [LONG_MAX + 1];
    TermAt(c, 0);
  }

  // ---------------------------------------------------------------------------
  // Orphaned records
  // ---------------------------------------------------------------------------

  predicate IsOrphan(e: Entry, pedigree: seq<nat>) {
    e.kind == Orphaned && e.reversePedigree == pedigree
  }

  // Record `j` is the first orphaned one with the pedigree of a steal; `j` is the length of the log
  // if there is none.
  ghost predicate FirstOrphan(log: seq<Entry>, pedigree: seq<nat>, j: nat) {
    && j <= |log| && (j < |log| ==> IsOrphan(log[j], pedigree))
    && forall i :: 0 <= i < j ==> !IsOrphan(log[i], pedigree)
  }

  // Some of the first `n` records of `steals` is a steal from worker `v` that orphaned record `j` of its log.
  ghost predicate Stolen(steals: seq<Entry>, n: nat, v: nat, log: seq<Entry>, j: nat) {
    exists i :: 0 <= i < n && i < |steals| && StealsAt(steals[i], v, log, j)
  }

  ghost predicate StealsAt(e: Entry, v: nat, log: seq<Entry>, j: nat) {
    e.kind == Steal && e.value == v && FirstOrphan(log, e.reversePedigree, j)
  }

  lemma StolenNext(steals: seq<Entry>, n: nat, v: nat, log: seq<Entry>, j: nat)
    requires n < |steals|
    ensures Stolen(steals, n + 1, v, log, j) <==> Stolen(steals, n, v, log, j) || StealsAt(steals[n], v, log, j)
  {
    if StealsAt(steals[n], v, log, j) {
      assert Stolen(steals, n + 1, v, log, j);
    }
    if Stolen(steals, n, v, log, j) {
      var i :| 0 <= i < n && i < |steals| && StealsAt(steals[i], v, log, j);
      assert Stolen(steals, n + 1, v, log, j);
    }
  }

  // The log of worker `v` after the first `n` records of `steals` have been looked at.
  ghost predicate Marked(steals: seq<Entry>, n: nat, v: nat, log: seq<Entry>, marked: seq<Entry>) {
    && SameRecords(log, marked)
    && forall j: nat :: j < |log| && log[j].kind == Orphaned ==>
         marked[j].value == if Stolen(steals, n, v, log, j) then 0 else log[j].value
  }

  // The same but for the values of orphaned records, which `scan_for_matching_steals` sets.
  ghost predicate SameRecords(a: seq<Entry>, b: seq<Entry>) {
    |a| == |b| && forall j :: 0 <= j < |a| ==>
      && b[j].kind == a[j].kind && b[j].reversePedigree == a[j].reversePedigree
      && (a[j].kind != Orphaned ==> b[j].value == a[j].value)
  }

  /** What marking means: an orphaned record has the value 0 if it is the first with its pedigree in
      this log and some steal from this worker has that pedigree; all else is as before. */
  lemma MarkedMeans(steals: seq<Entry>, v: nat, log: seq<Entry>, marked: seq<Entry>)
    ensures Marked(steals, |steals|, v, log, marked) <==>
            && |marked| == |log|
            && forall j :: 0 <= j < |log| ==>
                 && marked[j].kind == log[j].kind && marked[j].reversePedigree == log[j].reversePedigree
                 && marked[j].value ==
                    if log[j].kind == Orphaned
                       && (forall k :: 0 <= k < j ==>
                             log[k].kind != Orphaned || log[k].reversePedigree != log[j].reversePedigree)
                       && (exists i :: 0 <= i < |steals| && steals[i].kind == Steal && steals[i].value == v
                                       && steals[i].reversePedigree == log[j].reversePedigree)
                    then 0 else log[j].value
  {
    forall j: nat | j < |log| && log[j].kind == Orphaned
      ensures Stolen(steals, |steals|, v, log, j) <==>
              && (forall k :: 0 <= k < j ==>
                    log[k].kind != Orphaned || log[k].reversePedigree != log[j].reversePedigree)
              && (exists i :: 0 <= i < |steals| && steals[i].kind == Steal && steals[i].value == v
                              && steals[i].reversePedigree == log[j].reversePedigree)
    {
      forall i | 0 <= i < |steals|
        ensures StealsAt(steals[i], v, log, j) <==>
                && steals[i].kind == Steal && steals[i].value == v
                && steals[i].reversePedigree == log[j].reversePedigree
                && forall k :: 0 <= k < j ==> !IsOrphan(log[k], log[j].reversePedigree)
      {
      }
    }
  }

  /** Marks, in the logs of all workers, the orphaned records that the steals of one worker
      explain: for each steal the first one with its pedigree in the log of the victim. */
  method ScanForMatchingSteals(logs: seq<seq<Entry>>, steals: seq<Entry>) returns (marked: seq<seq<Entry>>)
    requires forall i :: 0 <= i < |steals| && steals[i].kind == Steal ==> 0 <= steals[i].value < |logs|
    ensures |marked| == |logs| && forall v: nat :: v < |logs| ==> Marked(steals, |steals|, v, logs[v], marked[v])
  {
    marked := logs;
    var i := 0;
    while i < |steals|
      invariant i <= |steals| && |marked| == |logs|
      invariant forall v: nat :: v < |logs| ==> Marked(steals, i, v, logs[v], marked[v])
    {
      forall v: nat, j: nat | v < |logs| && j < |logs[v]|
        ensures Stolen(steals, i + 1, v, logs[v], j) <==> Stolen(steals, i, v, logs[v], j) || StealsAt(steals[i], v, logs[v], j) {
        StolenNext(steals, i, v, logs[v], j);
      }
      if steals[i].kind == Steal {
        var v := steals[i].value;
        var j := FindOrphan(marked[v], steals[i].reversePedigree);
        SameOrphan(logs[v], marked[v], steals[i].reversePedigree, j);
        if j < |marked[v]| {
          marked := marked[v := marked[v][j := marked[v][j].(value := 0)]];
        }
      }
      i := i + 1;
    }
  }

  method FindOrphan(log: seq<Entry>, pedigree: seq<nat>) returns (j: nat)
    ensures FirstOrphan(log, pedigree, j)
  {
    j := 0;
    while j < |log| && !(log[j].kind == Orphaned && log[j].reversePedigree == pedigree)
      invariant j <= |log| && forall i :: 0 <= i < j ==> !IsOrphan(log[i], pedigree)
    {
      j := j + 1;
    }
  }

  // There is one first orphan, and marking does not change which.
  lemma SameOrphan(a: seq<Entry>, b: seq<Entry>, pedigree: seq<nat>, j: nat)
    requires SameRecords(a, b) && FirstOrphan(b, pedigree, j)
    ensures FirstOrphan(a, pedigree, j) && forall k: nat :: FirstOrphan(a, pedigree, k) ==> k == j
  {
  }

  /** The next entry of a log that ends in a `Last` entry: orphaned records without a matching
      steal are skipped, nothing else is, and the end is never passed. */
  method NextEntry(log: seq<Entry>, cur: nat) returns (next: nat)
    requires cur < |log| && log[|log| - 1].kind == Last
    ensures cur <= next < |log|
    ensures log[cur].kind == Last ==> next == cur
    ensures log[cur].kind != Last ==>
              && cur < next && !(log[next].kind == Orphaned && log[next].value == -1)
              && forall i :: cur < i < next ==> log[i].kind == Orphaned && log[i].value == -1
  {
    next := cur;
    if log[cur].kind == Last {
      return;
    }
    next := next + 1;
    while log[next].kind == Orphaned && log[next].value == -1
      invariant cur < next < |log|
      decreases |log| - next
      invariant forall i :: cur < i < next ==> log[i].kind == Orphaned && log[i].value == -1
    {
      next := next + 1;
    }
  }
}
