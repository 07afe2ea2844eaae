/**
 * The concordance listing: rows read back in word order are grouped by
 * adjacent equal words, and every completed group becomes one line made of a
 * letter label, the word padded to 25 columns, and `{count:list}` of the
 * sentence numbers it occurs in.
 */
module Listing {
  import opened Wrappers
  import opened Strings
  import opened Rows
  import Seqs

  const Alphabet := "abcdefghijklmnopqrstuvwxyz"

  /** `math.ceil(n / 26.0)`, computed on integers. */
  function CeilDiv26(n: int): int
  {
    -((-n) / 26)
  }

  lemma CeilDiv26Bounds(n: int)
    ensures 26 * (CeilDiv26(n) - 1) < n <= 26 * CeilDiv26(n)
  {
  }

  /**
   * `integer_to_letter`: the letter of `n` counted round the alphabet,
   * repeated once per lap, then a dot, then spaces up to six letters' width.
   */
  function Label(n: int): string
  {
    var laps := CeilDiv26(n);
    var index := n - (laps - 1) * 26;
    CeilDiv26Bounds(n);
    var letters := RepeatChar(Alphabet[index - 1], laps);
    letters + "." + RepeatChar(' ', 6 - |letters|)
  }

  /**
   * For every positive line number, the label is the letter `(n - 1) mod 26`
   * of the alphabet, repeated `ceil(n / 26)` times, a dot, and the padding.
   */
  lemma LabelShape(n: int)
    requires n >= 1
    ensures var laps := (n + 25) / 26;
      Label(n) == RepeatChar(Alphabet[(n - 1) % 26], laps) + "." + RepeatChar(' ', 6 - laps)
  {
    CeilDiv26Bounds(n);
    var laps := (n + 25) / 26;
    assert CeilDiv26(n) == laps;
    assert n - (laps - 1) * 26 - 1 == (n - 1) % 26;
  }

  /** A line number of zero or less has no letters: the label is a dot and six spaces. */
  lemma LabelOfNonPositive(n: int)
    requires n <= 0
    ensures Label(n) == "." + RepeatChar(' ', 6)
  {
    CeilDiv26Bounds(n);
    assert RepeatChar(Alphabet[n - (CeilDiv26(n) - 1) * 26 - 1], CeilDiv26(n)) == "";
  }

  /** Labels are seven columns wide up to line 156; past it they lose their padding. */
  lemma LabelWidth(n: int)
    requires n >= 1
    ensures |Label(n)| == if n <= 156 then 7 else (n + 25) / 26 + 1
  {
    LabelShape(n);
  }

  /** How many times `c` repeats at the start of `s`. */
  function Run(s: string, c: char): nat
    decreases |s|
  {
    if |s| == 0 || s[0] != c then 0 else 1 + Run(s[1..], c)
  }

  lemma {:induction false} RunOfRepeat(c: char, k: nat, rest: string)
    requires |rest| == 0 || rest[0] != c
    ensures Run(RepeatChar(c, k) + rest, c) == k
    decreases k
  {
    if k > 0 {
      var s := RepeatChar(c, k) + rest;
      assert s[1..] == RepeatChar(c, k - 1) + rest;
      RunOfRepeat(c, k - 1, rest);
    } else {
      assert RepeatChar(c, k) + rest == rest;
    }
  }

  /** The line number a label stands for: its lap count and its letter. */
  function LabelNumber(tag: string): (n: Option<int>)
    ensures n.Some? ==> n.value >= 1
  {
    if |tag| == 0 || !('a' <= tag[0] <= 'z') then None
    else
      var laps := Run(tag, tag[0]);
      Some((laps - 1) * 26 + (tag[0] as int - 'a' as int) + 1)
  }

  lemma AlphabetLetter(i: int)
    requires 0 <= i < 26
    ensures Alphabet[i] as int - 'a' as int == i
  {
  }

  /** Laps and letter index together determine the line number. */
  lemma LapsAndLetter(n: int)
    requires n >= 1
    ensures (n + 25) / 26 >= 1
    ensures ((n + 25) / 26 - 1) * 26 + (n - 1) % 26 + 1 == n
  {
    assert (n + 25) / 26 == (n - 1) / 26 + 1;
  }

  /** Every positive line number can be read back from its label. */
  lemma LabelRoundTrip(n: int)
    requires n >= 1
    ensures LabelNumber(Label(n)) == Some(n)
  {
    LabelShape(n);
    LapsAndLetter(n);
    var laps := (n + 25) / 26;
    var c := Alphabet[(n - 1) % 26];
    AlphabetLetter((n - 1) % 26);
    var letters, rest := RepeatChar(c, laps), "." + RepeatChar(' ', 6 - laps);
    assert Label(n) == letters + rest;
    assert 'a' <= c <= 'z';
    RunOfRepeat(c, laps, rest);
    assert (letters + rest)[0] == c;
  }

  /** Different lines never share a label. */
  lemma LabelsDistinct(m: int, n: int)
    requires m >= 1 && n >= 1 && m != n
    ensures Label(m) != Label(n)
  {
    LabelRoundTrip(m);
    LabelRoundTrip(n);
  }

  /** The labels of lines 1, 26, 27, 30, 52 and 53. */
  lemma SomeLabels()
    ensures Label(1) == "a.     " && Label(26) == "z.     "
    ensures Label(27) == "aa.    " && Label(30) == "dd.    "
    ensures Label(52) == "zz.    " && Label(53) == "aaa.   "
  {
    FirstLapLabels();
    SecondLapLabels();
    LaterLapLabels();
  }

  lemma FirstLapLabels()
    ensures Label(1) == "a.     " && Label(26) == "z.     "
  {
    LabelShape(1);
    LabelShape(26);
  }

  lemma SecondLapLabels()
    ensures Label(27) == "aa.    " && Label(30) == "dd.    "
  {
    LabelShape(27);
    LabelShape(30);
  }

  lemma LaterLapLabels()
    ensures Label(52) == "zz.    " && Label(53) == "aaa.   "
  {
    LabelShape(52);
    LabelShape(53);
  }

  /** The printed form of each sentence number, `str(row[1])`. */
  function Occurrences(numbers: seq<int>): seq<string>
  {
    seq(|numbers|, i requires 0 <= i < |numbers| => IntToString(numbers[i]))
  }

  /** One line of the listing, before it is formatted: its number, its word, its sentence numbers. */
  datatype PrintedLine = PrintedLine(lineNo: int, word: string, numbers: seq<int>)

  /** The label and the word padded to 25 columns. */
  function Head(lineNo: int, word: string): string
  {
    Label(lineNo) + word + RepeatChar(' ', 25 - |word|)
  }

  /** `str(len(occurrence_list)) + ':' + ','.join(occurrence_list)`. */
  function CountAndList(numbers: seq<int>): string
  {
    IntToString(|numbers|) + ":" + Join(",", Occurrences(numbers))
  }

  /** The text of a line: label, word padded to 25 columns, `{count:list}`. */
  function Render(line: PrintedLine): string
  {
    Head(line.lineNo, line.word) + "{" + CountAndList(line.numbers) + "}"
  }

  function RenderAll(lines: seq<PrintedLine>): seq<string>
  {
    seq(|lines|, i requires 0 <= i < |lines| => Render(lines[i]))
  }

  lemma {:induction false} JoinDigitsHasNoColon(xs: seq<string>)
    requires forall i :: 0 <= i < |xs| ==> ':' !in xs[i]
    ensures ':' !in Join(",", xs)
    decreases |xs|
  {
    if |xs| > 1 {
      JoinDigitsHasNoColon(xs[1..]);
    }
  }

  lemma IntToStringHasNo(n: int, c: char)
    requires !IsDigit(c) && c != '-'
    ensures c !in IntToString(n)
  {
    var digits := IntToString(n);
    forall i | 0 <= i < |digits| ensures digits[i] != c {
      assert IsDigit(digits[i]) || digits[i] == '-';
    }
  }

  /** Up to line 156 the label is seven columns and the head 32, the word starting at column 7. */
  lemma HeadLayout(lineNo: int, word: string)
    requires 1 <= lineNo <= 156 && |word| <= 25
    ensures var head := Head(lineNo, word);
      |head| == 32 && head[..7] == Label(lineNo) && head[7..7 + |word|] == word
  {
    LabelWidth(lineNo);
  }

  /** What sits between the braces splits back into the count and the numbers. */
  lemma CountAndListRoundTrip(numbers: seq<int>)
    ensures var inside := Split(CountAndList(numbers), ':');
      |inside| == 2 && ParseInt(inside[0]) == Some(|numbers|)
      && (|numbers| > 0 ==> Split(inside[1], ',') == Occurrences(numbers))
  {
    var occurrences := Occurrences(numbers);
    var count := IntToString(|numbers|);
    var list := Join(",", occurrences);
    forall i | 0 <= i < |occurrences| ensures ':' !in occurrences[i] && ',' !in occurrences[i] {
      IntToStringHasNo(numbers[i], ':');
      IntToStringHasNo(numbers[i], ',');
    }
    JoinDigitsHasNoColon(occurrences);
    IntToStringHasNo(|numbers|, ':');
    assert CountAndList(numbers) == count + [':'] + list;
    SplitAround(count, list, ':');
    SplitWithout(count, ':');
    SplitWithout(list, ':');
    IntToStringRoundTrip(|numbers|);
    if |numbers| > 0 {
      SplitJoin(occurrences, ',');
    }
  }

  /**
   * A line is its head, then the count and the list between braces; up to
   * line 156 and for words of at most 25 characters the head is 32 columns
   * wide, so `{` sits at column 32 (the rest of the layout is `HeadLayout`
   * and `CountAndListRoundTrip`).
   */
  lemma Braced(head: string, body: string)
    requires |head| == 32
    ensures var text := head + "{" + body + "}";
      && |text| >= 34 && text[..32] == head && text[32] == '{'
      && text[33..|text| - 1] == body && text[|text| - 1] == '}'
  {
    var text := head + "{" + body + "}";
    assert text == head + (['{'] + body + ['}']);
  }

  lemma LineLayout(line: PrintedLine)
    requires 1 <= line.lineNo <= 156 && |line.word| <= 25
    ensures var text := Render(line);
      && |text| >= 34 && text[..32] == Head(line.lineNo, line.word) && text[32] == '{'
      && text[33..|text| - 1] == CountAndList(line.numbers) && text[|text| - 1] == '}'
  {
    HeadLayout(line.lineNo, line.word);
    Braced(Head(line.lineNo, line.word), CountAndList(line.numbers));
  }

  /** The state of the scan over the ordered rows. */
  datatype ScanState = ScanState(lastWord: string, numbers: seq<int>, lineNo: int, lines: seq<PrintedLine>)

  /**
   * One row of the scan: when the word changes after a (truthy) last word,
   * the finished group is printed under the next line number and its list
   * emptied; then the row's word becomes the last word and its number joins
   * the list.
   */
  function ScanRow(s: ScanState, row: WordRow): ScanState
  {
    if |s.lastWord| > 0 && row.word != s.lastWord then
      ScanState(row.word, [row.sentenceNo], s.lineNo + 1, s.lines + [PrintedLine(s.lineNo + 1, s.lastWord, s.numbers)])
    else
      ScanState(row.word, s.numbers + [row.sentenceNo], s.lineNo, s.lines)
  }

  /** The scan state after the given rows, from no last word and no lines. */
  function Scan(rows: seq<WordRow>): ScanState
    decreases |rows|
  {
    if |rows| == 0 then ScanState("", [], 0, [])
    else ScanRow(Scan(rows[..|rows| - 1]), rows[|rows| - 1])
  }

  /** A word with the numbers of the consecutive rows that hold it. */
  datatype Group = Group(word: string, numbers: seq<int>)

  /** The rows, with adjacent rows of the same word gathered into one group. */
  function Groups(rows: seq<WordRow>): seq<Group>
    decreases |rows|
  {
    if |rows| == 0 then []
    else
      var gs := Groups(rows[..|rows| - 1]);
      var r := rows[|rows| - 1];
      if |gs| > 0 && gs[|gs| - 1].word == r.word then
        gs[..|gs| - 1] + [Group(r.word, gs[|gs| - 1].numbers + [r.sentenceNo])]
      else gs + [Group(r.word, [r.sentenceNo])]
  }

  /** The rows a group stands for. */
  function GroupRows(g: Group): seq<WordRow>
  {
    seq(|g.numbers|, i requires 0 <= i < |g.numbers| => WordRow(g.word, g.numbers[i]))
  }

  /** The rows a run of groups stands for, in order. */
  function Ungroup(gs: seq<Group>): seq<WordRow>
    decreases |gs|
  {
    if |gs| == 0 then [] else Ungroup(gs[..|gs| - 1]) + GroupRows(gs[|gs| - 1])
  }

  lemma UngroupSnoc(gs: seq<Group>, g: Group)
    ensures Ungroup(gs + [g]) == Ungroup(gs) + GroupRows(g)
  {
    assert (gs + [g])[..|gs|] == gs;
  }

  /** A row with the last group's word extends that group. */
  lemma GroupsMerge(rows: seq<WordRow>, r: WordRow)
    requires |Groups(rows)| > 0 && Groups(rows)[|Groups(rows)| - 1].word == r.word
    ensures var gs, n := Groups(rows), |Groups(rows)| - 1;
      Groups(rows + [r]) == gs[..n] + [Group(r.word, gs[n].numbers + [r.sentenceNo])]
  {
    assert (rows + [r])[..|rows|] == rows;
  }

  /** A row with any other word opens a new group. */
  lemma GroupsOpen(rows: seq<WordRow>, r: WordRow)
    requires |Groups(rows)| == 0 || Groups(rows)[|Groups(rows)| - 1].word != r.word
    ensures Groups(rows + [r]) == Groups(rows) + [Group(r.word, [r.sentenceNo])]
  {
    assert (rows + [r])[..|rows|] == rows;
  }

  /** Adding a row either extends the last group (same word) or opens a new one. */
  lemma GroupsSnoc(rows: seq<WordRow>, r: WordRow)
    ensures var gs := Groups(rows);
      Groups(rows + [r]) == if |gs| > 0 && gs[|gs| - 1].word == r.word
        then gs[..|gs| - 1] + [Group(r.word, gs[|gs| - 1].numbers + [r.sentenceNo])]
        else gs + [Group(r.word, [r.sentenceNo])]
  {
    assert (rows + [r])[..|rows|] == rows;
  }

  lemma GroupsLast(rows: seq<WordRow>)
    ensures |rows| > 0 ==> |Groups(rows)| > 0 && Groups(rows)[|Groups(rows)| - 1].word == rows[|rows| - 1].word
  {
    if |rows| > 0 {
      var front, r := rows[..|rows| - 1], rows[|rows| - 1];
      assert rows == front + [r];
      GroupsSnoc(front, r);
    }
  }

  lemma {:induction false} GroupsHoldNumbers(rows: seq<WordRow>)
    ensures forall i :: 0 <= i < |Groups(rows)| ==> |Groups(rows)[i].numbers| > 0
    decreases |rows|
  {
    if |rows| > 0 {
      var front, r := rows[..|rows| - 1], rows[|rows| - 1];
      assert rows == front + [r];
      GroupsHoldNumbers(front);
      GroupsSnoc(front, r);
      var gs, gs' := Groups(front), Groups(rows);
      assert forall i :: 0 <= i < |gs'| - 1 ==> gs'[i] == gs[i];
      assert |gs'[|gs'| - 1].numbers| > 0;
    }
  }

  lemma {:induction false} GroupsAlternate(rows: seq<WordRow>)
    ensures forall i :: 0 < i < |Groups(rows)| ==> Groups(rows)[i - 1].word != Groups(rows)[i].word
    decreases |rows|
  {
    if |rows| > 0 {
      var front, r := rows[..|rows| - 1], rows[|rows| - 1];
      assert rows == front + [r];
      GroupsAlternate(front);
      GroupsSnoc(front, r);
      var gs, gs' := Groups(front), Groups(rows);
      assert forall i :: 0 <= i < |gs'| - 1 ==> gs'[i] == gs[i];
    }
  }

  /**
   * Every group has at least one number, neighbouring groups hold different
   * words, and the last group holds the last row's word.
   */
  lemma GroupsShape(rows: seq<WordRow>)
    ensures forall i :: 0 <= i < |Groups(rows)| ==> |Groups(rows)[i].numbers| > 0
    ensures forall i :: 0 < i < |Groups(rows)| ==> Groups(rows)[i - 1].word != Groups(rows)[i].word
    ensures |rows| > 0 ==> |Groups(rows)| > 0 && Groups(rows)[|Groups(rows)| - 1].word == rows[|rows| - 1].word
  {
    GroupsHoldNumbers(rows);
    GroupsAlternate(rows);
    GroupsLast(rows);
  }

  /** Grouping loses nothing: the groups stand for exactly the rows, in order. */
  lemma {:induction false} GroupsRoundTrip(rows: seq<WordRow>)
    ensures Ungroup(Groups(rows)) == rows
    decreases |rows|
  {
    if |rows| > 0 {
      var front, r := rows[..|rows| - 1], rows[|rows| - 1];
      assert rows == front + [r];
      GroupsRoundTrip(front);
      var gs := Groups(front);
      if |gs| > 0 && gs[|gs| - 1].word == r.word {
        GroupsMerge(front, r);
        var init, g := gs[..|gs| - 1], gs[|gs| - 1];
        var g' := Group(r.word, g.numbers + [r.sentenceNo]);
        assert gs == init + [g];
        assert GroupRows(g') == GroupRows(g) + [r];
        calc {
          Ungroup(Groups(rows));
          Ungroup(init + [g']);
          { UngroupSnoc(init, g'); }
          Ungroup(init) + (GroupRows(g) + [r]);
          { Seqs.Associative(Ungroup(init), GroupRows(g), [r]); }
          (Ungroup(init) + GroupRows(g)) + [r];
          { UngroupSnoc(init, g); }
          Ungroup(gs) + [r];
        }
      } else {
        GroupsOpen(front, r);
        var g := Group(r.word, [r.sentenceNo]);
        UngroupSnoc(gs, g);
        assert GroupRows(g) == [r];
      }
    }
  }

  /** The lines of a run of groups, numbered from 1. */
  function Lines(gs: seq<Group>): seq<PrintedLine>
  {
    seq(|gs|, i requires 0 <= i < |gs| => PrintedLine(i + 1, gs[i].word, gs[i].numbers))
  }

  lemma LinesSnoc(gs: seq<Group>, g: Group)
    ensures Lines(gs + [g]) == Lines(gs) + [PrintedLine(|gs| + 1, g.word, g.numbers)]
  {
  }

  /** The scan state that stands for a non-empty run of groups. */
  function Pending(gs: seq<Group>): ScanState
    requires |gs| > 0
  {
    ScanState(gs[|gs| - 1].word, gs[|gs| - 1].numbers, |gs| - 1, Lines(gs[..|gs| - 1]))
  }

  /** A row of the pending group's word extends the pending group. */
  lemma ScanMerge(gs: seq<Group>, r: WordRow)
    requires |gs| > 0 && gs[|gs| - 1].word == r.word && |r.word| > 0
    ensures var n := |gs| - 1;
      ScanRow(Pending(gs), r) == Pending(gs[..n] + [Group(r.word, gs[n].numbers + [r.sentenceNo])])
  {
    var n := |gs| - 1;
    assert (gs[..n] + [Group(r.word, gs[n].numbers + [r.sentenceNo])])[..n] == gs[..n];
  }

  /** A row of another word prints the pending group and opens a new one. */
  lemma ScanOpen(gs: seq<Group>, r: WordRow)
    requires |gs| > 0 && gs[|gs| - 1].word != r.word && |gs[|gs| - 1].word| > 0
    ensures ScanRow(Pending(gs), r) == Pending(gs + [Group(r.word, [r.sentenceNo])])
  {
    var init, g := gs[..|gs| - 1], gs[|gs| - 1];
    assert (gs + [Group(r.word, [r.sentenceNo])])[..|gs|] == gs;
    assert gs == init + [g];
    LinesSnoc(init, g);
  }

  /**
   * When no row has the empty word, the scan has printed every group but the
   * last, numbered 1, 2, 3, ..., and holds the last group as its pending word
   * and list.
   */
  lemma {:induction false} ScanFollowsGroups(rows: seq<WordRow>)
    requires forall i :: 0 <= i < |rows| ==> |rows[i].word| > 0
    ensures |rows| == 0 ==> Scan(rows) == ScanState("", [], 0, [])
    ensures |rows| > 0 ==> |Groups(rows)| > 0 && Scan(rows) == Pending(Groups(rows))
    decreases |rows|
  {
    if |rows| > 0 {
      var front, r := rows[..|rows| - 1], rows[|rows| - 1];
      assert rows == front + [r];
      assert Scan(rows) == ScanRow(Scan(front), r);
      ScanFollowsGroups(front);
      var gs, gs' := Groups(front), Groups(rows);
      if |gs| == 0 {
        GroupsOpen(front, r);
        assert [Group(r.word, [r.sentenceNo])][..0] == [];
      } else if gs[|gs| - 1].word == r.word {
        GroupsMerge(front, r);
        ScanMerge(gs, r);
        assert Scan(rows) == Pending(gs');
      } else {
        GroupsOpen(front, r);
        GroupsLast(front);
        ScanOpen(gs, r);
        assert Scan(rows) == Pending(gs');
      }
    }
  }

  /**
   * Rows in the order `ORDER BY word` returns them (binary collation): each
   * row's word sorts no later than the next row's.
   */
  ghost predicate Sorted(rows: seq<WordRow>)
  {
    forall i :: 0 < i < |rows| ==> LexLeq(rows[i - 1].word, rows[i].word)
  }

  /** Strictly increasing words, hence no word twice. */
  ghost predicate Increasing(gs: seq<Group>)
  {
    forall i, j :: 0 <= i < j < |gs| ==> LexLess(gs[i].word, gs[j].word)
  }

  lemma OpenKeepsIncreasing(gs: seq<Group>, g: Group)
    requires Increasing(gs)
    requires |gs| > 0 ==> LexLess(gs[|gs| - 1].word, g.word)
    ensures Increasing(gs + [g])
  {
    var gs' := gs + [g];
    forall i, j | 0 <= i < j < |gs'| ensures LexLess(gs'[i].word, gs'[j].word) {
      if j == |gs| && i < |gs| - 1 {
        LexLessTransitive(gs[i].word, gs[|gs| - 1].word, g.word);
      }
    }
  }

  lemma MergeKeepsIncreasing(gs: seq<Group>, g: Group)
    requires Increasing(gs) && |gs| > 0 && gs[|gs| - 1].word == g.word
    ensures Increasing(gs[..|gs| - 1] + [g])
  {
    var gs' := gs[..|gs| - 1] + [g];
    assert forall i :: 0 <= i < |gs'| ==> gs'[i].word == gs[i].word;
  }

  /** Over word-ordered rows the groups hold strictly increasing, hence distinct, words. */
  lemma {:induction false} SortedGroups(rows: seq<WordRow>)
    requires Sorted(rows)
    ensures Increasing(Groups(rows))
    decreases |rows|
  {
    if |rows| > 0 {
      var front, r := rows[..|rows| - 1], rows[|rows| - 1];
      assert rows == front + [r];
      assert Sorted(front);
      SortedGroups(front);
      var gs := Groups(front);
      if |gs| > 0 && gs[|gs| - 1].word == r.word {
        GroupsMerge(front, r);
        MergeKeepsIncreasing(gs, Group(r.word, gs[|gs| - 1].numbers + [r.sentenceNo]));
      } else {
        GroupsOpen(front, r);
        if |gs| > 0 {
          GroupsLast(front);
          assert LexLeq(rows[|rows| - 2].word, rows[|rows| - 1].word);
        }
        OpenKeepsIncreasing(gs, Group(r.word, [r.sentenceNo]));
      }
    }
  }

  /** The words the rows hold. */
  function RowWords(rows: seq<WordRow>): set<string>
  {
    set k | 0 <= k < |rows| :: rows[k].word
  }

  /** The words the groups hold. */
  function GroupWords(gs: seq<Group>): set<string>
  {
    set i | 0 <= i < |gs| :: gs[i].word
  }

  lemma RowWordsSnoc(rows: seq<WordRow>, r: WordRow)
    ensures RowWords(rows + [r]) == RowWords(rows) + {r.word}
  {
    var rows' := rows + [r];
    assert rows'[|rows|] == r;
    forall w | w in RowWords(rows) ensures w in RowWords(rows') {
      var k :| 0 <= k < |rows| && rows[k].word == w;
      assert rows'[k] == rows[k];
    }
  }

  lemma GroupWordsSnoc(gs: seq<Group>, g: Group)
    ensures GroupWords(gs + [g]) == GroupWords(gs) + {g.word}
  {
    var gs' := gs + [g];
    assert gs'[|gs|] == g;
    forall w | w in GroupWords(gs) ensures w in GroupWords(gs') {
      var i :| 0 <= i < |gs| && gs[i].word == w;
      assert gs'[i] == gs[i];
    }
  }

  /** Grouping neither loses a word nor invents one. */
  lemma {:induction false} GroupsKeepWords(rows: seq<WordRow>)
    ensures GroupWords(Groups(rows)) == RowWords(rows)
    decreases |rows|
  {
    if |rows| > 0 {
      var front, r := rows[..|rows| - 1], rows[|rows| - 1];
      assert rows == front + [r];
      GroupsKeepWords(front);
      GroupsSnoc(front, r);
      RowWordsSnoc(front, r);
      var gs := Groups(front);
      if |gs| > 0 && gs[|gs| - 1].word == r.word {
        var n := |gs| - 1;
        assert gs == gs[..n] + [gs[n]];
        GroupWordsSnoc(gs[..n], gs[n]);
        GroupWordsSnoc(gs[..n], Group(r.word, gs[n].numbers + [r.sentenceNo]));
      } else {
        GroupWordsSnoc(gs, Group(r.word, [r.sentenceNo]));
      }
    }
  }

  /** One more row advances the scan by one step. */
  lemma ScanPrefix(rows: seq<WordRow>, i: int)
    requires 0 <= i < |rows|
    ensures Scan(rows[..i + 1]) == ScanRow(Scan(rows[..i]), rows[i])
  {
    assert rows[..i + 1][..i] == rows[..i];
  }

  lemma RenderAllSnoc(lines: seq<PrintedLine>, line: PrintedLine)
    ensures RenderAll(lines + [line]) == RenderAll(lines) + [Render(line)]
  {
  }

  /**
   * `print_db`: scan the rows in order, printing one line per finished group
   * of equal words. Returns the text of the printed lines in order.
   */
  method PrintDb(rows: seq<WordRow>) returns (lines: seq<string>)
    ensures lines == RenderAll(Scan(rows).lines)
    ensures (forall i :: 0 <= i < |rows| ==> |rows[i].word| > 0) && |rows| > 0 ==>
      lines == RenderAll(Lines(Groups(rows)[..|Groups(rows)| - 1]))
  {
    var lastWord, numbers, lineNo := "", [], 0;
    ghost var printed := [];
    lines := [];
    for i := 0 to |rows|
      invariant ScanState(lastWord, numbers, lineNo, printed) == Scan(rows[..i])
      invariant lines == RenderAll(printed)
    {
      ScanPrefix(rows, i);
      var row := rows[i];
      if |lastWord| > 0 && row.word != lastWord {
        lineNo := lineNo + 1;
        var line := PrintedLine(lineNo, lastWord, numbers);
        RenderAllSnoc(printed, line);
        lines := lines + [Render(line)];
        printed := printed + [line];
        numbers := [];
      }
      lastWord := row.word;
      numbers := numbers + [row.sentenceNo];
    }
    assert rows[..|rows|] == rows;
    if (forall i :: 0 <= i < |rows| ==> |rows[i].word| > 0) && |rows| > 0 {
      ScanFollowsGroups(rows);
    }
  }

  /**
   * The listing of a store that ends in a sentinel row whose word sorts after
   * every stored word: exactly one line per group of the stored rows, numbered
   * 1, 2, 3, ..., and no line for the sentinel.
   */
  lemma ListingBeforeSentinel(stored: seq<WordRow>, sentinel: WordRow)
    requires forall i :: 0 <= i < |stored| ==> |stored[i].word| > 0 && LexLess(stored[i].word, sentinel.word)
    requires |sentinel.word| > 0
    ensures Scan(stored + [sentinel]).lines == Lines(Groups(stored))
  {
    var rows := stored + [sentinel];
    GroupsShape(stored);
    GroupsSnoc(stored, sentinel);
    var gs := Groups(stored);
    if |gs| > 0 {
      LexLessIrreflexive(sentinel.word);
      assert stored[|stored| - 1].word != sentinel.word;
    }
    var g := Group(sentinel.word, [sentinel.sentenceNo]);
    assert (gs + [g])[..|gs|] == gs;
    ScanFollowsGroups(rows);
  }

  /**
   * `'z' * k` sorts after every word of at most `k` characters that uses no
   * character past `z` and is not itself `'z' * k`.
   */
  lemma {:induction false} SentinelSortsLast(w: string, k: nat)
    requires |w| <= k && w != RepeatChar('z', k)
    requires forall i :: 0 <= i < |w| ==> w[i] <= 'z'
    ensures LexLess(w, RepeatChar('z', k))
    decreases |w|
  {
    var z := RepeatChar('z', k);
    if |w| > 0 {
      assert z[0] == 'z';
      if w[0] == 'z' {
        assert z[1..] == RepeatChar('z', k - 1);
        assert w == [w[0]] + w[1..] && z == [z[0]] + z[1..];
        SentinelSortsLast(w[1..], k - 1);
      }
    }
  }

  /**
   * The listing of a word-ordered store whose words all sort before the
   * sentinel of `add_data_to_db`: one line per distinct word, in increasing
   * word order, every row accounted for in its word's line.
   */
  lemma ListingOfSortedStore(stored: seq<WordRow>)
    requires Sorted(stored)
    requires forall i :: 0 <= i < |stored| ==> |stored[i].word| > 0 && LexLess(stored[i].word, SentinelWord)
    ensures Scan(stored + [SentinelRow]).lines == Lines(Groups(stored))
    ensures Increasing(Groups(stored))
    ensures GroupWords(Groups(stored)) == RowWords(stored)
    ensures Ungroup(Groups(stored)) == stored
  {
    assert |SentinelWord| > 0;
    ListingBeforeSentinel(stored, SentinelRow);
    SortedGroups(stored);
    GroupsKeepWords(stored);
    GroupsRoundTrip(stored);
  }

  /**
   * As written, the last group of the scan is never printed. When a word sorts
   * after the sentinel (any word starting with a letter past `z`, such as
   * "über"), the group lost is that of a real word, and the sentinel's own
   * group is printed as a line instead.
   */
  lemma WordAfterSentinelIsLost()
    ensures LexLess(SentinelWord, "über")
    ensures Scan([SentinelRow, WordRow("über", 1)]).lines == [PrintedLine(1, SentinelWord, [0])]
  {
    assert |SentinelWord| > 0 && SentinelWord[0] == 'z';
    var rows := [SentinelRow, WordRow("über", 1)];
    assert rows[..1] == [SentinelRow];
    assert [SentinelRow][..0] == [];
    assert Scan([SentinelRow]) == ScanState(SentinelWord, [0], 0, []);
  }

  /**
   * The listing the sentinel stands in for: scan the stored rows and print the
   * final group at the end of input, so that no word depends on sorting before
   * a sentinel.
   */
  function FlushedLines(rows: seq<WordRow>): seq<PrintedLine>
  {
    var s := Scan(rows);
    if |s.lastWord| > 0 then s.lines + [PrintedLine(s.lineNo + 1, s.lastWord, s.numbers)] else s.lines
  }

  /** Flushing at the end lists every group, whatever words the rows hold and in whatever order. */
  lemma CompleteListing(rows: seq<WordRow>)
    requires forall i :: 0 <= i < |rows| ==> |rows[i].word| > 0
    ensures FlushedLines(rows) == Lines(Groups(rows))
  {
    ScanFollowsGroups(rows);
    if |rows| > 0 {
      var gs := Groups(rows);
      assert gs == gs[..|gs| - 1] + [gs[|gs| - 1]];
      LinesSnoc(gs[..|gs| - 1], gs[|gs| - 1]);
      GroupsShape(rows);
    }
  }
}
