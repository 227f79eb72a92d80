/** The stop script: it parses the keep-choice the user typed, turns it into
    one keep-set per category of change, and undoes every change that is not
    kept, removing added files and restoring modified and deleted ones from
    the backup. */
module StopSession {
  import opened Outcomes
  import opened Seqs
  import opened Text
  import opened Workspace

  /** What `load_user_choices` returns: the string "all" or a set of
      zero-based positions. */
  datatype Choice = All | Pick(indices: set<int>)

  /** The position a token names: `int(t.strip()) - 1` when
      `t.strip().isdigit()`, and none otherwise. */
  function TokenIndex(t: string): (i: Option<int>)
    ensures i.Some? ==> i.value >= -1
  {
    var s := Strip(t);
    if IsDigits(s) then Some(DecimalValue(s) - 1) else None
  }

  /** The values of the `Some` entries of `opts`. */
  function Present(opts: seq<Option<int>>): (ix: set<int>)
    ensures forall i :: i in ix <==> exists k :: 0 <= k < |opts| && opts[k] == Some(i)
    decreases |opts|
  {
    if |opts| == 0 then {}
    else
      var last := |opts| - 1;
      var rest := Present(opts[..last]);
      match opts[last]
      case None => rest
      case Some(i) => rest + {i}
  }

  /** The positions named by the comma-separated tokens: each token that is
      all digits once stripped contributes its value minus one, the others
      are dropped without an error. */
  function TokenIndices(tokens: seq<string>): (ix: set<int>)
    ensures forall i :: i in ix <==> exists k :: 0 <= k < |tokens| && TokenIndex(tokens[k]) == Some(i)
    ensures forall i :: i in ix ==> i >= -1
  {
    var named := seq(|tokens|, k requires 0 <= k < |tokens| => TokenIndex(tokens[k]));
    assert forall k :: 0 <= k < |tokens| ==> named[k] == TokenIndex(tokens[k]);
    Present(named)
  }

  /** `load_user_choices`, given the content of the choice file or `None`
      when the file does not exist. */
  function ParseChoices(file: Option<string>): (c: Choice)
    ensures file.None? ==> c == Pick({})
    ensures c.All? <==> file.Some? && LowerEquals(Strip(file.value), "all")
    ensures file.Some? && LowerEquals(Strip(file.value), "none") ==> c == Pick({})
    ensures file.Some? && !LowerEquals(Strip(file.value), "all")
            && !LowerEquals(Strip(file.value), "none")
            ==> c == Pick(TokenIndices(Split(Strip(file.value), ',')))
    ensures c.Pick? ==> forall i :: i in c.indices ==> i >= -1
  {
    match file
    case None => Pick({})
    case Some(text) =>
      var content := Strip(text);
      if LowerEquals(content, "all") then All
      else if LowerEquals(content, "none") then Pick({})
      else Pick(TokenIndices(Split(content, ',')))
  }

  /** A token that is a digit string with white space around it, split as
      `t == a + d + b`. */
  predicate PaddedDigits(t: string, a: string, d: string, b: string)
  {
    t == a + d + b && AllSpace(a) && IsDigits(d) && AllSpace(b)
  }

  /** A token names a position exactly when it is a digit string with white
      space around it, and then it names the digits' value minus one. */
  lemma TokenIndexIffPaddedDigits(t: string)
    ensures TokenIndex(t).Some? <==> exists a, d, b :: PaddedDigits(t, a, d, b)
    ensures forall a, d, b :: PaddedDigits(t, a, d, b) ==> TokenIndex(t) == Some(DecimalValue(d) - 1)
  {
    forall a, d, b | PaddedDigits(t, a, d, b)
      ensures TokenIndex(t) == Some(DecimalValue(d) - 1)
    {
      PaddedDigitsTokenIndex(a, d, b);
    }
    if TokenIndex(t).Some? {
      NamedTokenIsPadded(t);
    }
  }

  /** A token that names a position is its strip with white space around
      it. */
  lemma NamedTokenIsPadded(t: string)
    requires IsDigits(Strip(t))
    ensures exists a, d, b :: PaddedDigits(t, a, d, b)
  {
    var a, b := StripParts(t);
    assert PaddedDigits(t, a, Strip(t), b);
  }

  /** White space around a digit string does not change the position it
      names. */
  lemma PaddedDigitsTokenIndex(a: string, d: string, b: string)
    requires AllSpace(a) && IsDigits(d) && AllSpace(b)
    ensures TokenIndex(a + d + b) == Some(DecimalValue(d) - 1)
  {
    DigitIsNotSpace(d[0]);
    DigitIsNotSpace(d[|d| - 1]);
    StripPadded(a, d, b);
    StrippedDigitsTokenIndex(a + d + b, d);
  }

  /** A token whose strip is a digit string names that string's value minus
      one. */
  lemma StrippedDigitsTokenIndex(t: string, d: string)
    requires Strip(t) == d && IsDigits(d)
    ensures TokenIndex(t) == Some(DecimalValue(d) - 1)
  {
  }

  /** The number `n` typed with white space around it, as in the `2` of
      `1, 2`, names position `n - 1`. */
  lemma PaddedNumeralIndex(a: string, n: nat, b: string)
    requires AllSpace(a) && AllSpace(b)
    ensures TokenIndex(a + NatToString(n) + b) == Some(n as int - 1)
  {
    PaddedDigitsTokenIndex(a, NatToString(n), b);
    DecimalValueOfNatToString(n);
  }

  /** The numerals of `ns`, as the user types them. */
  function Numerals(ns: seq<nat>): seq<string>
  {
    seq(|ns|, k requires 0 <= k < |ns| => NatToString(ns[k]))
  }

  /** The numerals of `ns` with a blank before all but the first, so that
      their comma-join reads `1, 2, 3`. */
  function SpacedNumerals(ns: seq<nat>): seq<string>
  {
    seq(|ns|, k requires 0 <= k < |ns| => if k == 0 then NatToString(ns[k]) else " " + NatToString(ns[k]))
  }

  /** Typing the numbers `n1,n2,...` selects the zero-based positions
      `n1 - 1, n2 - 1, ...`. */
  lemma ParseTypedNumbers(ns: seq<nat>)
    requires |ns| >= 1
    ensures ParseChoices(Some(Join(Numerals(ns), ',')))
            == Pick(set k | 0 <= k < |ns| :: ns[k] as int - 1)
  {
    var ts := Numerals(ns);
    NumeralsParseAsText(ts);
    forall k | 0 <= k < |ts|
      ensures ',' !in ts[k]
    {
      DigitsHaveNoComma(ts[k]);
    }
    SplitJoin(ts, ',');
    forall k | 0 <= k < |ns|
      ensures TokenIndex(ts[k]) == Some(ns[k] as int - 1)
    {
      NumeralIndex(ns[k]);
    }
    TokensNamingNumbers(ts, ns);
  }

  /** Typing the numbers `n1, n2, ...` with a blank after each comma, as the
      prompt suggests, selects the same positions as typing them without. */
  lemma ParseSpacedNumbers(ns: seq<nat>)
    requires |ns| >= 1
    ensures ParseChoices(Some(Join(SpacedNumerals(ns), ',')))
            == Pick(set k | 0 <= k < |ns| :: ns[k] as int - 1)
  {
    var ts := SpacedNumerals(ns);
    assert ts[0] == NatToString(ns[0]);
    var last := NatToString(ns[|ns| - 1]);
    assert ts[|ts| - 1][|ts[|ts| - 1]| - 1] == last[|last| - 1];
    NumeralsParseAsText(ts);
    forall k | 0 <= k < |ts|
      ensures ',' !in ts[k]
    {
      DigitsHaveNoComma(NatToString(ns[k]));
    }
    SplitJoin(ts, ',');
    SpacedNumeralIndices(ns);
    TokensNamingNumbers(ts, ns);
  }

  /** Each spaced numeral names its number minus one. */
  lemma SpacedNumeralIndices(ns: seq<nat>)
    ensures forall k :: 0 <= k < |ns| ==> TokenIndex(SpacedNumerals(ns)[k]) == Some(ns[k] as int - 1)
  {
    var ts := SpacedNumerals(ns);
    forall k | 0 <= k < |ns|
      ensures TokenIndex(ts[k]) == Some(ns[k] as int - 1)
    {
      if k == 0 {
        NumeralIndex(ns[k]);
      } else {
        PaddedNumeralIndex(" ", ns[k], "");
        assert " " + NatToString(ns[k]) + "" == ts[k];
      }
    }
  }

  /** A comma-join whose first and last characters are digits is neither
      "all" nor "none" and has no white space to strip. */
  lemma NumeralsParseAsText(ts: seq<string>)
    requires |ts| >= 1 && |ts[0]| > 0 && |ts[|ts| - 1]| > 0
    requires IsDigit(ts[0][0]) && IsDigit(ts[|ts| - 1][|ts[|ts| - 1]| - 1])
    ensures var text := Join(ts, ',');
            && Strip(text) == text
            && !LowerEquals(text, "all") && !LowerEquals(text, "none")
  {
    var text := Join(ts, ',');
    JoinStarts(ts, ',');
    JoinEnds(ts, ',');
    DigitIsNotSpace(text[0]);
    DigitIsNotSpace(text[|text| - 1]);
    StripNoEdgeSpace(text);
    assert Lower(text[0]) == text[0];
    assert Lower(text[0]) != "all"[0] && Lower(text[0]) != "none"[0];
  }

  /** A digit string, with or without one blank before it, holds no comma. */
  lemma DigitsHaveNoComma(t: string)
    requires IsDigits(t)
    ensures ',' !in t && ',' !in " " + t
  {
    assert forall j :: 0 <= j < |t| ==> IsDigit(t[j]);
    assert forall j :: 0 <= j < |" " + t| ==> (" " + t)[j] == ' ' || IsDigit((" " + t)[j]);
  }

  /** Tokens that name the numbers `ns` minus one, in order, name exactly
      those positions. */
  lemma TokensNamingNumbers(ts: seq<string>, ns: seq<nat>)
    requires |ts| == |ns|
    requires forall k :: 0 <= k < |ts| ==> TokenIndex(ts[k]) == Some(ns[k] as int - 1)
    ensures TokenIndices(ts) == set k | 0 <= k < |ns| :: ns[k] as int - 1
  {
    NamedAreTyped(ts, ns);
    TypedAreNamed(ts, ns);
  }

  /** Every position the tokens name is one of the numbers minus one. */
  lemma NamedAreTyped(ts: seq<string>, ns: seq<nat>)
    requires |ts| == |ns|
    requires forall k :: 0 <= k < |ts| ==> TokenIndex(ts[k]) == Some(ns[k] as int - 1)
    ensures forall i :: i in TokenIndices(ts) ==> exists k :: 0 <= k < |ns| && i == ns[k] as int - 1
  {
    forall i | i in TokenIndices(ts)
      ensures exists k :: 0 <= k < |ns| && i == ns[k] as int - 1
    {
      var k :| 0 <= k < |ts| && TokenIndex(ts[k]) == Some(i);
      assert i == ns[k] as int - 1;
    }
  }

  /** Every number minus one is a position the tokens name. */
  lemma TypedAreNamed(ts: seq<string>, ns: seq<nat>)
    requires |ts| == |ns|
    requires forall k :: 0 <= k < |ts| ==> TokenIndex(ts[k]) == Some(ns[k] as int - 1)
    ensures forall k :: 0 <= k < |ns| ==> ns[k] as int - 1 in TokenIndices(ts)
  {
    forall k | 0 <= k < |ns|
      ensures ns[k] as int - 1 in TokenIndices(ts)
    {
      assert TokenIndex(ts[k]) == Some(ns[k] as int - 1);
    }
  }

  /** The numeral of `n` names position `n - 1`. */
  lemma NumeralIndex(n: nat)
    ensures TokenIndex(NatToString(n)) == Some(n as int - 1)
  {
    DigitsTokenIndex(NatToString(n));
    DecimalValueOfNatToString(n);
  }

  /** A digit string names its value minus one. */
  lemma DigitsTokenIndex(t: string)
    requires IsDigits(t)
    ensures TokenIndex(t) == Some(DecimalValue(t) - 1)
  {
    StripNoEdgeSpace(t);
  }

  /** "all" is recognised in any letter case and with surrounding white
      space. */
  lemma ParseAllIgnoresCaseAndSpace()
    ensures ParseChoices(Some(" ALL\n")) == All
  {
    var s := " ALL\n";
    assert SpanStart(s, 1) == 1;
    assert SpanStart(s, 0) == 1;
    assert SpanEnd(s, 1, 4) == 4;
    assert SpanEnd(s, 1, 5) == 4;
    assert Strip(s) == "ALL";
  }

  /** "none" is recognised in any letter case and keeps nothing. */
  lemma ParseNoneIgnoresCase()
    ensures ParseChoices(Some("None")) == Pick({})
  {
    StripNoEdgeSpace("None");
    assert LowerEquals("None", "none");
    assert !LowerEquals("None", "all");
  }

  /** Tokens that are not digits, empty ones included, are dropped without
      an error. */
  lemma ParseDropsNonDigitTokens()
    ensures ParseChoices(Some("2, x,,3")) == Pick({1, 2})
  {
    var s := "2, x,,3";
    StripNoEdgeSpace(s);
    assert !LowerEquals(s, "all") && !LowerEquals(s, "none");
    var parts := ["2", " x", "", "3"];
    assert Join(parts[3..], ',') == "3";
    assert Join(parts[2..], ',') == ",3";
    assert Join(parts[1..], ',') == " x,,3";
    assert Join(parts, ',') == s;
    SplitJoin(parts, ',');
    ExampleTokenIndices();
  }

  /** The positions named by the tokens of "2, x,,3". */
  lemma ExampleTokenIndices()
    ensures TokenIndices(["2", " x", "", "3"]) == {1, 2}
  {
    ExampleTokens();
    TwoOfFourTokens("2", " x", "", "3", 1, 2);
  }

  /** Four tokens of which the first and the last name a position. */
  lemma TwoOfFourTokens(t0: string, t1: string, t2: string, t3: string, i0: int, i3: int)
    requires TokenIndex(t0) == Some(i0) && TokenIndex(t1) == None
    requires TokenIndex(t2) == None && TokenIndex(t3) == Some(i3)
    ensures TokenIndices([t0, t1, t2, t3]) == {i0, i3}
  {
    var ts := [t0, t1, t2, t3];
    assert forall k :: 0 <= k < 4 ==> TokenIndex(ts[k]) == None || TokenIndex(ts[k]) == Some(i0)
                                       || TokenIndex(ts[k]) == Some(i3);
    assert TokenIndex(ts[0]) == Some(i0) && TokenIndex(ts[3]) == Some(i3);
  }

  /** What each token of "2, x,,3" names. */
  lemma ExampleTokens()
    ensures TokenIndex("2") == Some(1) && TokenIndex("3") == Some(2)
    ensures TokenIndex(" x") == None && TokenIndex("") == None
  {
    DigitsTokenIndex("2");
    DigitsTokenIndex("3");
    assert SpanStart(" x", 1) == 1;
    assert SpanEnd(" x", 1, 2) == 2;
    assert Strip(" x") == "x";
  }

  /** `apply_decision` for positions below `n`: the files whose position is
      in `ix`. */
  function PickPositions(files: seq<Path>, ix: set<int>, n: nat): (keep: set<Path>)
    requires n <= |files|
    ensures forall x :: x in keep <==> exists i :: 0 <= i < n && i in ix && files[i] == x
    decreases n
  {
    if n == 0 then {}
    else
      var rest := PickPositions(files, ix, n - 1);
      if n - 1 in ix then rest + {files[n - 1]} else rest
  }

  /** `apply_decision`: "all" keeps every listed file; a set of positions
      keeps the files at the positions in range and ignores the others. */
  function Decide(files: seq<Path>, c: Choice): (keep: set<Path>)
    ensures forall x :: x in keep ==> x in files
    ensures c.All? ==> forall x :: x in files ==> x in keep
    ensures c.Pick? ==> forall x :: x in keep <==>
              exists i :: i in c.indices && 0 <= i < |files| && files[i] == x
  {
    match c
    case All => set x | x in files
    case Pick(ix) => PickPositions(files, ix, |files|)
  }

  /** Typing "0" selects nothing: it becomes position -1. */
  lemma ZeroSelectsNothing(files: seq<Path>)
    ensures ParseChoices(Some("0")) == Pick({-1})
    ensures Decide(files, ParseChoices(Some("0"))) == {}
  {
    StripNoEdgeSpace("0");
    SplitPiece("0", ',', "");
    assert TokenIndex("0") == Some(-1);
  }

  /** Typing the number `n` keeps exactly the `n`-th listed file. */
  lemma TypingNumberKeepsThatFile(files: seq<Path>, n: nat)
    requires 1 <= n <= |files|
    ensures Decide(files, ParseChoices(Some(NatToString(n)))) == {files[n - 1]}
  {
    TypedNumber(n);
    OnePosition(files, Decide(files, Pick({n - 1})), n - 1);
  }

  /** The files kept in each category. */
  datatype KeepSets = KeepSets(added: set<Path>, modified: set<Path>, deleted: set<Path>)

  /** Keep nothing: the choice file is missing, says "none", or names no
      position in range. */
  const KeepNothing: KeepSets := KeepSets({}, {}, {})

  /** The keep-sets of `main`: the one parsed choice is applied by position
      to each list separately, and an empty list keeps nothing. */
  function ChooseKeepSets(c: ChangeSet, choice: Choice): (k: KeepSets)
    ensures forall p :: p in k.added ==> p in c.added
    ensures forall p :: p in k.modified ==> p in c.modified
    ensures forall p :: p in k.deleted ==> p in c.deleted
    ensures choice.All? ==> (forall p :: p in c.added ==> p in k.added)
                            && (forall p :: p in c.modified ==> p in k.modified)
                            && (forall p :: p in c.deleted ==> p in k.deleted)
    ensures choice == Pick({}) ==> k == KeepNothing
    ensures choice.Pick? ==> forall p :: p in k.added <==>
              exists i :: i in choice.indices && 0 <= i < |c.added| && c.added[i] == p
    ensures choice.Pick? ==> forall p :: p in k.modified <==>
              exists i :: i in choice.indices && 0 <= i < |c.modified| && c.modified[i] == p
    ensures choice.Pick? ==> forall p :: p in k.deleted <==>
              exists i :: i in choice.indices && 0 <= i < |c.deleted| && c.deleted[i] == p
  {
    KeepSets(
      if c.added != [] then Decide(c.added, choice) else {},
      if c.modified != [] then Decide(c.modified, choice) else {},
      if c.deleted != [] then Decide(c.deleted, choice) else {})
  }

  /** The files `main` keeps when the user types the single number `n`:
      the `n`-th file of each list that is that long, and nothing from a
      shorter list. */
  lemma SameNumberInEveryList(c: ChangeSet, n: nat)
    ensures var k := ChooseKeepSets(c, ParseChoices(Some(NatToString(n))));
            && k.added == (if 1 <= n <= |c.added| then {c.added[n - 1]} else {})
            && k.modified == (if 1 <= n <= |c.modified| then {c.modified[n - 1]} else {})
            && k.deleted == (if 1 <= n <= |c.deleted| then {c.deleted[n - 1]} else {})
  {
    TypedNumber(n);
    KeepOnePosition(c, n - 1);
  }

  /** The keep-sets of the one position `i`. */
  lemma KeepOnePosition(c: ChangeSet, i: int)
    ensures var k := ChooseKeepSets(c, Pick({i}));
            && k.added == (if 0 <= i < |c.added| then {c.added[i]} else {})
            && k.modified == (if 0 <= i < |c.modified| then {c.modified[i]} else {})
            && k.deleted == (if 0 <= i < |c.deleted| then {c.deleted[i]} else {})
  {
    var k := ChooseKeepSets(c, Pick({i}));
    OnePosition(c.added, k.added, i);
    OnePosition(c.modified, k.modified, i);
    OnePosition(c.deleted, k.deleted, i);
  }

  /** The single number `n` parses to position `n - 1`. */
  lemma TypedNumber(n: nat)
    ensures ParseChoices(Some(NatToString(n))) == Pick({n - 1})
  {
    ParseTypedNumbers([n]);
    assert Numerals([n]) == [NatToString(n)];
    assert (set k | 0 <= k < 1 :: [n][k] as int - 1) == {n - 1};
  }

  /** The files at the one position `i` of a list: one file when `i` is in
      range, none otherwise. */
  lemma OnePosition(files: seq<Path>, keep: set<Path>, i: int)
    requires forall p :: p in keep <==> exists j :: j in {i} && 0 <= j < |files| && files[j] == p
    ensures keep == if 0 <= i < |files| then {files[i]} else {}
  {
    if 0 <= i < |files| {
      assert files[i] in keep;
    }
  }

  /** A path that `main` restores from the backup. */
  predicate Restores(c: ChangeSet, keep: KeepSets, p: Path)
  {
    (p in c.modified && p !in keep.modified) || (p in c.deleted && p !in keep.deleted)
  }

  /** A path that `main` removes from the workspace. */
  predicate Removes(c: ChangeSet, keep: KeepSets, p: Path)
  {
    p in c.added && p !in keep.added
  }

  /** The disk `r` after `main`'s loops on `files`: a path to restore that
      has a backup holds the backed up content, a path to remove is gone,
      and every other path is as before. */
  ghost predicate IsUndo(files: Files, backup: Files, c: ChangeSet, keep: KeepSets, r: Files)
  {
    forall p ::
      if Restores(c, keep, p) && p in backup then p in r && r[p] == backup[p]
      else if Removes(c, keep, p) then p !in r
      else (p in r <==> p in files) && (p in r ==> r[p] == files[p])
  }

  /** The three loops of `main`: remove the added files not kept, then
      restore the modified files not kept, then restore the deleted files
      not kept. */
  method ApplyKeepSets(files: Files, backup: Files, c: ChangeSet, keep: KeepSets)
    returns (r: Files)
    ensures IsUndo(files, backup, c, keep, r)
  {
    r := files;
    var i := 0;
    while i < |c.added|
      invariant 0 <= i <= |c.added|
      invariant forall p :: p in r <==> p in files && !(p in c.added[..i] && p !in keep.added)
      invariant forall p :: p in r ==> r[p] == files[p]
    {
      var f := c.added[i];
      if f !in keep.added {
        r := RemoveFile(r, f);
      }
      assert c.added[..i + 1] == c.added[..i] + [f];
      i := i + 1;
    }
    assert c.added[..i] == c.added;
    ghost var cleared := r;

    var j := 0;
    while j < |c.modified|
      invariant 0 <= j <= |c.modified|
      invariant forall p :: p in c.modified[..j] && p !in keep.modified && p in backup
                  ==> p in r && r[p] == backup[p]
      invariant forall p :: !(p in c.modified[..j] && p !in keep.modified && p in backup)
                  ==> (p in r <==> p in cleared) && (p in r ==> r[p] == cleared[p])
    {
      var f := c.modified[j];
      if f !in keep.modified {
        r := RestoreFile(r, backup, f);
      }
      assert c.modified[..j + 1] == c.modified[..j] + [f];
      j := j + 1;
    }
    assert c.modified[..j] == c.modified;
    ghost var revised := r;

    var k := 0;
    while k < |c.deleted|
      invariant 0 <= k <= |c.deleted|
      invariant forall p :: p in c.deleted[..k] && p !in keep.deleted && p in backup
                  ==> p in r && r[p] == backup[p]
      invariant forall p :: !(p in c.deleted[..k] && p !in keep.deleted && p in backup)
                  ==> (p in r <==> p in revised) && (p in r ==> r[p] == revised[p])
    {
      var f := c.deleted[k];
      if f !in keep.deleted {
        r := RestoreFile(r, backup, f);
      }
      assert c.deleted[..k + 1] == c.deleted[..k] + [f];
      k := k + 1;
    }
    assert c.deleted[..k] == c.deleted;
  }

  /** Why `main` could not run. */
  datatype StopError = SnapshotMissing

  /** What `main` computed and the disk it left. */
  datatype StopReport = StopReport(changes: ChangeSet, keep: KeepSets, files: Files)

  /** `main`: load the stored snapshot (a missing snapshot file raises),
      scan the workspace, diff, parse the choice file and undo every change
      that is not kept. */
  method Stop(w: SecureWorkspace, stored: Option<Snapshot>, files: Files, backup: Files,
              walk: seq<Path>, hash: Hasher, unreadable: set<Path>, choiceFile: Option<string>)
    returns (res: Result<StopReport, StopError>)
    requires stored.Some? ==> stored.value.Valid()
    requires IsListing(walk, files)
    ensures res.Err? <==> stored.None?
    ensures res.Ok? ==>
              res.value.changes == DetectChanges(stored.value,
                                                 ScanDirectory(w, files, walk, hash, unreadable))
    ensures res.Ok? ==> res.value.keep == ChooseKeepSets(res.value.changes, ParseChoices(choiceFile))
    ensures res.Ok? ==> IsUndo(files, backup, res.value.changes, res.value.keep, res.value.files)
    ensures res.Ok? && ParseChoices(choiceFile).All? ==> res.value.files == files
  {
    if stored.None? {
      return Err(SnapshotMissing);
    }
    var snapshot := stored.value;
    var changes := DetectChanges(snapshot, ScanDirectory(w, files, walk, hash, unreadable));
    var choice := ParseChoices(choiceFile);
    var keep := ChooseKeepSets(changes, choice);
    var after := ApplyKeepSets(files, backup, changes, keep);
    if choice.All? {
      KeepingEverythingChangesNothing(files, backup, changes, keep, after);
    }
    return Ok(StopReport(changes, keep, after));
  }

  /** When every listed change is kept, the disk is left alone. */
  lemma KeepingEverythingChangesNothing(files: Files, backup: Files, c: ChangeSet,
                                        keep: KeepSets, r: Files)
    requires forall p :: p in c.added ==> p in keep.added
    requires forall p :: p in c.modified ==> p in keep.modified
    requires forall p :: p in c.deleted ==> p in keep.deleted
    requires IsUndo(files, backup, c, keep, r)
    ensures r == files
  {
    forall p
      ensures (p in r <==> p in files) && (p in r ==> r[p] == files[p])
    {
      assert !Restores(c, keep, p) && !Removes(c, keep, p);
    }
  }
}
