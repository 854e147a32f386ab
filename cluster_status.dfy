/**
  The Snakemake cluster-status script for Slurm: it takes the text printed by
  `sacct -j <jobid> --format=State`, reads the job state from its third line,
  normalises it and translates it into the word Snakemake expects.
 */
module ClusterStatus {
  import opened Wrappers
  import opened PyStr

  /** The three job statuses a Snakemake cluster-status script may report. */
  datatype Outcome = Running | Success | Failed {

    /** The word the script prints for this status. */
    function Word(): (w: string)
      ensures w in {"running", "success", "failed"}
    {
      match this
      case Running => "running"
      case Success => "success"
      case Failed => "failed"
    }
  }

  /** The two uncaught exceptions the script can raise. */
  datatype Error =
    | TooFewLines(fields: nat)     // IndexError: the output splits into only `fields` lines
    | UnknownState(state: string)  // KeyError: the normalised state is not in the table

  /** Index of the line of `sacct` output that carries the state (after two header lines). */
  const StateLine: nat := 2

  /** The script's table from Slurm job states to statuses. */
  function StateTable(): (t: map<string, Outcome>)
    ensures "" in t && t[""] == Success
  {
    map[
      "PENDING" := Running,
      "RUNNING" := Running,
      "SUSPENDED" := Running,
      "CANCELLED" := Failed,
      "COMPLETING" := Running,
      "COMPLETED" := Success,
      "CONFIGURING" := Running,
      "FAILED" := Failed,
      "TIMEOUT" := Failed,
      "PREEMPTED" := Failed,
      "NODE_FAIL" := Failed,
      "REVOKED" := Failed,
      "SPECIAL_EXIT" := Failed,
      "" := Success
    ]
  }

  /** Slurm states reported as still running. */
  const RunningStates: set<string> :=
    {"PENDING", "RUNNING", "SUSPENDED", "COMPLETING", "CONFIGURING"}

  /** Slurm states reported as finished successfully; an empty state counts as one. */
  const SuccessStates: set<string> := {"COMPLETED", ""}

  /** Slurm states reported as failed. */
  const FailedStates: set<string> :=
    {"CANCELLED", "FAILED", "TIMEOUT", "PREEMPTED", "NODE_FAIL", "REVOKED", "SPECIAL_EXIT"}

  /** Each group of states maps to its status. */
  lemma TableValues()
    ensures forall st :: st in RunningStates ==> StateTable()[st] == Running
    ensures forall st :: st in SuccessStates ==> StateTable()[st] == Success
    ensures forall st :: st in FailedStates ==> StateTable()[st] == Failed
  {
  }

  /** The table's keys are exactly the 14 grouped states. */
  lemma TableKeys()
    ensures StateTable().Keys == RunningStates + SuccessStates + FailedStates
  {
  }

  /** Neither the first nor the last character of `s` is whitespace or `+`. */
  predicate Plain(s: string)
  {
    s == [] || (s[0] !in Whitespace + {'+'} && s[|s| - 1] !in Whitespace + {'+'})
  }

  /** No state in a group starts or ends with whitespace or `+`. */
  lemma GroupsPlain()
    ensures forall st :: st in RunningStates ==> Plain(st)
    ensures forall st :: st in SuccessStates ==> Plain(st)
    ensures forall st :: st in FailedStates ==> Plain(st)
  {
  }

  /** No state in the table starts or ends with whitespace or `+`. */
  lemma KeysPlain()
    ensures forall st :: st in StateTable() ==> Plain(st)
  {
    TableKeys();
    GroupsPlain();
  }

  /**
    The state as the script compares it: surrounding whitespace removed first,
    then surrounding `+` (which Slurm appends to truncated names).
   */
  function Normalise(line: string): (state: string)
    ensures |state| <= |line|
    ensures state != [] ==> state[0] != '+' && state[|state| - 1] != '+'
  {
    StripChar(StripWs(line), '+')
  }

  /** Translation of one state line: the table's status for the normalised state. */
  function Classify(line: string): (r: Result<Outcome, Error>)
    ensures r.Ok? <==> Normalise(line) in StateTable()
    ensures r.Err? ==> r.error == UnknownState(Normalise(line))
  {
    var state := Normalise(line);
    if state in StateTable() then Ok(StateTable()[state]) else Err(UnknownState(state))
  }

  /**
    A line is reported as running, success or failed exactly when its
    normalised state is in that status's group, and as an unknown state,
    carrying the normalised text, exactly when it is in none.
   */
  lemma ClassifyGroups(line: string)
    ensures Classify(line) == Ok(Running) <==> Normalise(line) in RunningStates
    ensures Classify(line) == Ok(Success) <==> Normalise(line) in SuccessStates
    ensures Classify(line) == Ok(Failed) <==> Normalise(line) in FailedStates
    ensures Classify(line).Err? <==> Normalise(line) !in RunningStates + SuccessStates + FailedStates
    ensures Classify(line).Err? ==> Classify(line).error == UnknownState(Normalise(line))
  {
    TableKeys();
    TableValues();
  }

  /**
    Translation of the whole `sacct` output: it fails with the index error
    exactly when the output has fewer than two line breaks, and otherwise
    is the translation of its third line.
   */
  function Translate(output: string): (r: Result<Outcome, Error>)
    ensures r.Err? && r.error.TooFewLines? <==> Count(output, '\n') < 2
    ensures r.Err? && r.error.TooFewLines? ==> r.error.fields == Count(output, '\n') + 1
  {
    var lines := Split(output, '\n');
    if |lines| <= StateLine then Err(TooFewLines(|lines|)) else Classify(lines[StateLine])
  }

  /** Whatever the lines are, joining them into an output makes the third one decide. */
  lemma ThirdLineDecides(lines: seq<string>)
    requires |lines| > StateLine
    requires forall i :: 0 <= i < |lines| ==> '\n' !in lines[i]
    ensures Translate(Join(lines, '\n')) == Classify(lines[StateLine])
  {
    SplitJoin(lines, '\n');
  }

  /**
    The same, phrased on raw text: after two header lines, a last line
    decides the result on its own.
   */
  lemma LastStateLineDecides(head0: string, head1: string, state: string)
    requires '\n' !in head0 && '\n' !in head1 && '\n' !in state
    ensures Translate(head0 + "\n" + head1 + "\n" + state) == Classify(state)
  {
    var nl := "\n";
    assert head0 + nl + head1 + nl + state == head0 + (nl + (head1 + (nl + state)));
    SplitTwoFields(head0, head1, state, '\n');
    SplitNone(state, '\n');
  }

  /**
    And when more lines follow the state line, nothing after its line
    break matters either.
   */
  lemma OnlyStateLineMatters(head0: string, head1: string, state: string, rest: string)
    requires '\n' !in head0 && '\n' !in head1 && '\n' !in state
    ensures Translate(head0 + "\n" + head1 + "\n" + state + "\n" + rest) == Classify(state)
  {
    var nl := "\n";
    var tail := state + (nl + rest);
    assert head0 + nl + head1 + nl + state + nl + rest == head0 + (nl + (head1 + (nl + tail)));
    SplitTwoFields(head0, head1, tail, '\n');
    SplitField(state, rest, '\n');
  }

  /** Outputs whose state lines agree translate alike, whatever else differs. */
  lemma SameStateLineSameOutcome(a: string, b: string)
    requires Count(a, '\n') >= 2 && Count(b, '\n') >= 2
    requires Split(a, '\n')[StateLine] == Split(b, '\n')[StateLine]
    ensures Translate(a) == Translate(b)
  {
  }

  /**
    Normalisation peels whitespace off the outside, then `+` off what is
    left: a state wrapped as `ws1 + plus1 + core + plus2 + ws2` normalises
    to `core`, as long as `core` neither starts nor ends with either.
   */
  lemma NormaliseWrapped(ws1: string, plus1: string, core: string, plus2: string, ws2: string)
    requires forall k :: 0 <= k < |ws1| ==> ws1[k] in Whitespace
    requires forall k :: 0 <= k < |ws2| ==> ws2[k] in Whitespace
    requires forall k :: 0 <= k < |plus1| ==> plus1[k] == '+'
    requires forall k :: 0 <= k < |plus2| ==> plus2[k] == '+'
    requires Plain(core)
    ensures Normalise(ws1 + plus1 + core + plus2 + ws2) == core
  {
    assert {'+'} !! Whitespace;
    StripNested(ws1, plus1, core, plus2, ws2, Whitespace, {'+'});
  }

  /** A text that neither starts nor ends with whitespace or `+` is already normalised. */
  lemma NormalisePlain(core: string)
    requires Plain(core)
    ensures Normalise(core) == core
  {
    NormaliseWrapped("", "", core, "", "");
    assert "" + "" + core + "" + "" == core;
  }

  /**
    A known state keeps its status however much whitespace and how many `+`
    marks surround it, as long as the marks sit inside the whitespace.
   */
  lemma KnownStateWrapped(ws1: string, plus1: string, st: string, plus2: string, ws2: string)
    requires forall k :: 0 <= k < |ws1| ==> ws1[k] in Whitespace
    requires forall k :: 0 <= k < |ws2| ==> ws2[k] in Whitespace
    requires forall k :: 0 <= k < |plus1| ==> plus1[k] == '+'
    requires forall k :: 0 <= k < |plus2| ==> plus2[k] == '+'
    requires st in StateTable()
    ensures Classify(ws1 + plus1 + st + plus2 + ws2) == Ok(StateTable()[st])
  {
    KeysPlain();
    NormaliseWrapped(ws1, plus1, st, plus2, ws2);
  }

  /**
    Whitespace between a state and its trailing `+` marks survives
    normalisation, and no known state ends in whitespace, so the line is
    reported as an unknown state.
   */
  lemma WhitespaceBeforeMarkKept(core: string, ws: string, plus: string)
    requires core != [] && core[0] !in Whitespace + {'+'}
    requires ws != [] && forall k :: 0 <= k < |ws| ==> ws[k] in Whitespace
    requires plus != [] && forall k :: 0 <= k < |plus| ==> plus[k] == '+'
    ensures Normalise(core + ws + plus) == core + ws
    ensures Classify(core + ws + plus) == Err(UnknownState(core + ws))
  {
    assert {'+'} !! Whitespace;
    StripShielded(core, ws, plus, Whitespace, {'+'});
    var kept := core + ws;
    assert kept[|kept| - 1] == ws[|ws| - 1];
    KeysPlain();
  }

  /**
    At the front likewise: whitespace between leading `+` marks and a state
    survives normalisation, and no known state starts with whitespace, so
    the line is reported as an unknown state.
   */
  lemma WhitespaceAfterMarkKept(plus: string, ws: string, core: string)
    requires core != [] && core[|core| - 1] !in Whitespace + {'+'}
    requires ws != [] && forall k :: 0 <= k < |ws| ==> ws[k] in Whitespace
    requires plus != [] && forall k :: 0 <= k < |plus| ==> plus[k] == '+'
    ensures Normalise(plus + ws + core) == ws + core
    ensures Classify(plus + ws + core) == Err(UnknownState(ws + core))
  {
    assert {'+'} !! Whitespace;
    StripShieldedLeft(plus, ws, core, Whitespace, {'+'});
    var kept := ws + core;
    assert kept[0] == ws[0];
    KeysPlain();
  }

  /**
    A state line that is blank, or a run of `+` inside whitespace, normalises
    to the empty state and counts as success.
   */
  lemma BlankStateSucceeds(ws1: string, plus: string, ws2: string)
    requires forall k :: 0 <= k < |ws1| ==> ws1[k] in Whitespace
    requires forall k :: 0 <= k < |ws2| ==> ws2[k] in Whitespace
    requires forall k :: 0 <= k < |plus| ==> plus[k] == '+'
    ensures Normalise(ws1 + plus + ws2) == ""
    ensures Classify(ws1 + plus + ws2) == Ok(Success)
  {
    NormaliseWrapped(ws1, plus, "", "", ws2);
    assert ws1 + plus + "" + "" + ws2 == ws1 + plus + ws2;
  }

  /** A truncation mark `+` after a state does not hide it. */
  lemma TrailingMarkStripped()
    ensures Classify("COMPLETED+") == Ok(Success)
  {
    assert "" + "" + "COMPLETED" + "+" + "" == "COMPLETED+";
    KnownStateWrapped("", "", "COMPLETED", "+", "");
  }

  /** Nor does a truncation mark `+` before it. */
  lemma LeadingMarkStripped()
    ensures Classify("+COMPLETED") == Ok(Success)
  {
    assert "" + "+" + "COMPLETED" + "" + "" == "+COMPLETED";
    KnownStateWrapped("", "+", "COMPLETED", "", "");
  }

  /** Padding outside the truncation mark is removed before the mark is. */
  lemma PaddedMarkStripped()
    ensures Classify("  COMPLETED+  ") == Ok(Success)
  {
    assert "  " + "" + "COMPLETED" + "+" + "  " == "  COMPLETED+  ";
    KnownStateWrapped("  ", "", "COMPLETED", "+", "  ");
  }

  /** A space before the truncation mark is kept, so the state no longer matches. */
  lemma SpaceBeforeMarkKept()
    ensures Normalise("COMPLETED +") == "COMPLETED "
    ensures Classify("COMPLETED +") == Err(UnknownState("COMPLETED "))
  {
    assert "COMPLETED" + " " + "+" == "COMPLETED +";
    assert "COMPLETED" + " " == "COMPLETED ";
    WhitespaceBeforeMarkKept("COMPLETED", " ", "+");
  }

  /** A space after a leading truncation mark is kept too, so that state does not match either. */
  lemma SpaceAfterMarkKept()
    ensures Normalise("+ COMPLETED") == " COMPLETED"
    ensures Classify("+ COMPLETED") == Err(UnknownState(" COMPLETED"))
  {
    assert "+" + " " + "COMPLETED" == "+ COMPLETED";
    assert " " + "COMPLETED" == " COMPLETED";
    WhitespaceAfterMarkKept("+", " ", "COMPLETED");
  }

  /** Matching is case-sensitive: a lower-case state name is unknown. */
  lemma LowerCaseUnknown()
    ensures Classify("completed") == Err(UnknownState("completed"))
  {
    NormalisePlain("completed");
  }

  /** Matching is exact: a state followed by more words is unknown. */
  lemma ExtraWordsUnknown()
    ensures Classify("CANCELLED by 123") == Err(UnknownState("CANCELLED by 123"))
  {
    NormalisePlain("CANCELLED by 123");
  }

  /**
    Each state of the table, written plainly, gets the table's status, and the
    three statuses print three different words, so the script prints one of
    exactly `running`, `success` and `failed`.
   */
  lemma ThreeWords()
    ensures forall st :: st in StateTable() ==> Classify(st) == Ok(StateTable()[st])
    ensures forall o: Outcome, p: Outcome :: o.Word() == p.Word() ==> o == p
    ensures forall o: Outcome :: o.Word() in {"running", "success", "failed"}
  {
    forall st | st in StateTable() ensures Classify(st) == Ok(StateTable()[st]) {
      KeysPlain();
      NormalisePlain(st);
    }
  }

  /** The lines of a typical `sacct` listing: a padded header, a rule, the padded state and an empty last line. */
  const SacctLines: seq<string> := ["     State ", "---------- ", " COMPLETED ", ""]

  /** Only the padded state line of that listing decides its translation. */
  lemma SacctListingLines()
    ensures Translate(Join(SacctLines, '\n')) == Classify(" COMPLETED ")
  {
    ThirdLineDecides(SacctLines);
  }

  /** The padded state line of that listing. */
  lemma PaddedStateLine()
    ensures Classify(" COMPLETED ") == Ok(Success)
  {
    assert " " + "" + "COMPLETED" + "" + " " == " COMPLETED ";
    KnownStateWrapped(" ", "", "COMPLETED", "", " ");
  }

  /** A typical `sacct` listing of a finished job translates to success. */
  lemma SacctListing()
    ensures Translate(Join(SacctLines, '\n')) == Ok(Success)
  {
    SacctListingLines();
    PaddedStateLine();
  }

  /** Output with a single line break, or none, hits the index error. */
  lemma ShortOutputFails(head0: string, head1: string)
    requires '\n' !in head0 && '\n' !in head1
    ensures Translate(head0) == Err(TooFewLines(1))
    ensures Translate(head0 + "\n" + head1) == Err(TooFewLines(2))
  {
    assert head0 + "\n" + head1 == head0 + ("\n" + head1);
    SplitNone(head0, '\n');
    SplitField(head0, head1, '\n');
    SplitNone(head1, '\n');
  }

  /**
    A listing with its two header lines and no job line still ends in a line
    break, so its third line is empty and the job is reported as a success.
   */
  lemma HeaderOnlySucceeds(head0: string, head1: string)
    requires '\n' !in head0 && '\n' !in head1
    ensures Translate(head0 + "\n" + head1 + "\n") == Ok(Success)
  {
    assert head0 + "\n" + head1 + "\n" + "" == head0 + "\n" + head1 + "\n";
    LastStateLineDecides(head0, head1, "");
    BlankStateSucceeds("", "", "");
    assert "" + "" + "" == "";
  }
}
