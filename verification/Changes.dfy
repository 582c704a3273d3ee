/**
  Merging the changes between two revisions into the file tree of a snapshot.

  Git prints a change as NUL-ended tokens: a status and a path, or a status and two paths for a
  rename or a copy.
 */
module Changes {
  import opened Wrappers
  import opened Sequences
  import opened Strings
  import opened Snapshots

  const NUL: char := '\0'

  datatype Change = Change(status: string, path: string, oldPath: Option<string>)

  /** Renames and copies name the old path first. */
  predicate Moves(status: string) {
    StartsWith(status, "R") || StartsWith(status, "C")
  }

  // ----- The stream -----

  predicate Token(t: string) {
    t != "" && NUL !in t
  }

  predicate WellFormed(c: Change) {
    && Token(c.status) && Token(c.path)
    && (c.oldPath.Some? <==> Moves(c.status))
    && (c.oldPath.Some? ==> Token(c.oldPath.value))
  }

  function TokensOf(c: Change): seq<string> {
    if c.oldPath.Some? then [c.status, c.oldPath.value, c.path] else [c.status, c.path]
  }

  function AllTokens(changes: seq<Change>): seq<string> {
    if changes == [] then [] else TokensOf(changes[0]) + AllTokens(changes[1..])
  }

  function NonEmpty(parts: seq<string>): seq<string> {
    if parts == [] then []
    else if parts[0] == "" then NonEmpty(parts[1..])
    else [parts[0]] + NonEmpty(parts[1..])
  }

  function Tokens(raw: string): seq<string> {
    NonEmpty(Split(raw, NUL))
  }

  /** The changes a list of tokens spells; a lone last token is ignored. */
  function Decoded(tokens: seq<string>): Result<seq<Change>, string> {
    if |tokens| < 2 then Ok([])
    else if !Moves(tokens[0]) then Prepend(Change(tokens[0], tokens[1], None), Decoded(tokens[2..]))
    else if |tokens| < 3 then Err("Invalid rename diff")
    else Prepend(Change(tokens[0], tokens[2], Some(tokens[1])), Decoded(tokens[3..]))
  }

  function Prepend(c: Change, rest: Result<seq<Change>, string>): Result<seq<Change>, string> {
    match rest
    case Err(e) => Err(e)
    case Ok(more) => Ok([c] + more)
  }

  lemma {:induction false} NonEmptyTokens(tokens: seq<string>)
    requires forall k | 0 <= k < |tokens| :: Token(tokens[k])
    ensures NonEmpty(tokens + [""]) == tokens
  {
    if tokens == [] {
      var none: seq<string> := [""];
      assert NonEmpty(none[1..]) == [];
    } else {
      assert Token(tokens[0]);
      assert forall k | 0 <= k < |tokens[1..]| :: tokens[1..][k] == tokens[k + 1];
      NonEmptyTokens(tokens[1..]);
      assert (tokens + [""])[1..] == tokens[1..] + [""];
      assert [tokens[0]] + tokens[1..] == tokens;
    }
  }

  lemma {:induction false} AllTokensAreTokens(changes: seq<Change>)
    requires forall k | 0 <= k < |changes| :: WellFormed(changes[k])
    ensures forall k | 0 <= k < |AllTokens(changes)| :: Token(AllTokens(changes)[k])
  {
    if changes != [] {
      assert WellFormed(changes[0]);
      assert forall k | 0 <= k < |changes[1..]| :: changes[1..][k] == changes[k + 1];
      AllTokensAreTokens(changes[1..]);
    }
  }

  lemma {:induction false} DecodedTokens(changes: seq<Change>)
    requires forall k | 0 <= k < |changes| :: WellFormed(changes[k])
    ensures Decoded(AllTokens(changes)) == Ok(changes)
  {
    if changes != [] {
      var c, rest := changes[0], AllTokens(changes[1..]);
      assert WellFormed(c);
      assert forall k | 0 <= k < |changes[1..]| :: changes[1..][k] == changes[k + 1];
      DecodedTokens(changes[1..]);
      assert AllTokens(changes)[|TokensOf(c)|..] == rest;
      assert [c] + changes[1..] == changes;
    }
  }

  /** Decoding the printed stream recovers the change list. */
  lemma StreamReadsBack(changes: seq<Change>)
    requires forall k | 0 <= k < |changes| :: WellFormed(changes[k])
    ensures Decoded(Tokens(Ended(AllTokens(changes), NUL))) == Ok(changes)
  {
    AllTokensAreTokens(changes);
    SplitEnded(AllTokens(changes), NUL);
    NonEmptyTokens(AllTokens(changes));
    DecodedTokens(changes);
  }

  /** A change as any stream may spell it: an old path exactly with an R or a C. */
  predicate Spelled(c: Change) {
    c.status != "" && (c.oldPath.Some? <==> c.status[0] in {'R', 'C'})
  }

  /**
    Any tokens are changes and a rest of at most two: one token more is ignored, and two are a
    rename or copy without its new path, which is the only error.
   */
  lemma {:induction false} DecodedIs(tokens: seq<string>) returns (changes: seq<Change>, rest: seq<string>)
    requires forall k | 0 <= k < |tokens| :: tokens[k] != ""
    ensures tokens == AllTokens(changes) + rest && forall k | 0 <= k < |changes| :: Spelled(changes[k])
    ensures |rest| <= 2 && (|rest| == 2 ==> rest[0] != "" && rest[0][0] in {'R', 'C'})
    ensures Decoded(tokens) == if |rest| == 2 then Err("Invalid rename diff") else Ok(changes)
    decreases |tokens|
  {
    if |tokens| < 2 || (|tokens| == 2 && Moves(tokens[0])) {
      changes, rest := [], tokens;
      assert AllTokens(changes) == [];
    } else {
      var n := if Moves(tokens[0]) then 3 else 2;
      var c := if Moves(tokens[0]) then Change(tokens[0], tokens[2], Some(tokens[1])) else Change(tokens[0], tokens[1], None);
      changes, rest := DecodedIs(tokens[n..]);
      assert tokens == TokensOf(c) + tokens[n..];
      Regroup(TokensOf(c), AllTokens(changes), rest);
      assert ([c] + changes)[1..] == changes;
      changes := [c] + changes;
    }
  }

  // ----- Merging -----

  function Marked(e: Entry, c: Change): Entry
    requires c.status != ""
  {
    e.(status := c.status[..1], oldPath := c.oldPath)
  }

  function ApplyOne(files: seq<Entry>, c: Change, base: seq<Entry>): seq<Entry>
    requires c.status != ""
  {
    var i := IndexOf(files, c.path);
    if i < |files| then files[i := Marked(files[i], c)]
    else if c.status == "D" && Find(base, c.path).Some? then files + [Find(base, c.path).value.(status := "D")]
    else files
  }

  function ApplyEach(files: seq<Entry>, changes: seq<Change>, base: seq<Entry>): seq<Entry>
    requires forall k | 0 <= k < |changes| :: changes[k].status != ""
    decreases changes
  {
    if changes == [] then files else ApplyEach(ApplyOne(files, changes[0], base), changes[1..], base)
  }

  predicate PathLe(a: Entry, b: Entry) {
    LexLe(Codes(a.path), Codes(b.path))
  }

  lemma DecodedStatuses(tokens: seq<string>)
    requires forall k | 0 <= k < |tokens| :: tokens[k] != ""
    ensures Decoded(tokens).Ok? ==> forall k | 0 <= k < |Decoded(tokens).value| :: Decoded(tokens).value[k].status != ""
  {
  }

  lemma {:induction false} NonEmptyParts(parts: seq<string>)
    ensures forall k | 0 <= k < |NonEmpty(parts)| :: NonEmpty(parts)[k] != ""
  {
    if parts != [] {
      NonEmptyParts(parts[1..]);
    }
  }

  function Merged(files: seq<Entry>, changes: seq<Change>, base: seq<Entry>): seq<Entry>
    requires forall k | 0 <= k < |changes| :: changes[k].status != ""
  {
    Sort(ApplyEach(files, changes, base), PathLe)
  }

  /** Reads the stream and edits the file list as it goes; the base tree is read when needed. */
  method ApplyChanges(head: seq<Entry>, raw: string, base: seq<Entry>) returns (r: Result<seq<Entry>, string>)
    ensures r.Err? <==> Decoded(Tokens(raw)).Err?
    ensures r.Ok? ==>
              var changes := Decoded(Tokens(raw)).value;
              && (forall k | 0 <= k < |changes| :: changes[k].status != "")
              && r.value == Merged(head, changes, base)
  {
    var parts := Tokens(raw);
    NonEmptyParts(Split(raw, NUL));
    DecodedStatuses(parts);
    var files, i := head, 0;
    ghost var done: seq<Change> := [];
    assert parts[0..] == parts;
    NothingDone(Decoded(parts));
    while i + 1 < |parts|
      invariant i <= |parts|
      invariant forall k | 0 <= k < |done| :: done[k].status != ""
      invariant files == ApplyEach(head, done, base)
      invariant Decoded(parts) == PrependAll(done, Decoded(parts[i..]))
      decreases |parts| - i
    {
      ghost var tokens := parts[i..];
      var status, path, oldPath: Option<string> := parts[i], parts[i + 1], None;
      i := i + 2;
      if Moves(status) {
        if i >= |parts| {
          return Err("Invalid rename diff");
        }
        path, oldPath := parts[i], Some(path);
        i := i + 1;
      }
      var change := Change(status, path, oldPath);
      assert Decoded(tokens) == Prepend(change, Decoded(parts[i..])) by {
        assert tokens[2..] == parts[i - (if Moves(status) then 1 else 0)..];
        assert Moves(status) ==> tokens[3..] == parts[i..];
      }
      PrependOne(done, change, Decoded(parts[i..]));
      ApplyLast(head, done, change, base);
      done := done + [change];
      var at := IndexOf(files, path);
      if at < |files| {
        files := files[at := files[at].(status := status[..1], oldPath := oldPath)];
      } else if status == "D" {
        var entry := Find(base, path);
        if entry.Some? {
          files := files + [entry.value.(status := "D")];
        }
      }
    }
    assert Decoded(parts[i..]) == Ok([]) && done + [] == done;
    return Ok(Sort(files, PathLe));
  }

  function PrependAll(done: seq<Change>, rest: Result<seq<Change>, string>): Result<seq<Change>, string> {
    match rest
    case Err(e) => Err(e)
    case Ok(more) => Ok(done + more)
  }

  lemma NothingDone(r: Result<seq<Change>, string>)
    ensures PrependAll([], r) == r
  {
    if r.Ok? {
      assert [] + r.value == r.value;
    }
  }

  lemma PrependOne(done: seq<Change>, c: Change, rest: Result<seq<Change>, string>)
    ensures PrependAll(done, Prepend(c, rest)) == PrependAll(done + [c], rest)
  {
    if rest.Ok? {
      assert done + ([c] + rest.value) == (done + [c]) + rest.value;
    }
  }

  lemma {:induction false} ApplyLast(files: seq<Entry>, done: seq<Change>, c: Change, base: seq<Entry>)
    requires c.status != "" && forall k | 0 <= k < |done| :: done[k].status != ""
    ensures ApplyEach(files, done + [c], base) == ApplyOne(ApplyEach(files, done, base), c, base)
    decreases done
  {
    if done == [] {
      assert [] + [c] == [c];
      assert [c][1..] == [];
    } else {
      assert (done + [c])[1..] == done[1..] + [c];
      ApplyLast(ApplyOne(files, done[0], base), done[1..], c, base);
    }
  }

  // ----- What the merged list holds -----

  predicate DistinctPaths(files: seq<Entry>) {
    forall i, j | 0 <= i < j < |files| :: files[i].path != files[j].path
  }

  /** What a change makes of the entry its path has, if any. */
  function ChangedBy(entry: Option<Entry>, c: Change, base: seq<Entry>): Option<Entry>
    requires c.status != ""
  {
    match entry
    case Some(e) => Some(Marked(e, c))
    case None =>
      if c.status != "D" then None
      else
        match Find(base, c.path)
        case Some(e) => Some(e.(status := "D"))
        case None => None
  }

  lemma FindIsMember(files: seq<Entry>, path: string)
    ensures Find(files, path).Some? <==> exists e | e in files :: e.path == path
    ensures Find(files, path).Some? ==> Find(files, path).value in files && Find(files, path).value.path == path
  {
  }

  lemma FindUnique(files: seq<Entry>, i: nat)
    requires DistinctPaths(files) && i < |files|
    ensures Find(files, files[i].path) == Some(files[i])
  {
    var k := IndexOf(files, files[i].path);
    assert k <= i;
  }

  lemma ApplyOneFinds(files: seq<Entry>, c: Change, base: seq<Entry>, path: string)
    requires c.status != "" && DistinctPaths(files)
    ensures DistinctPaths(ApplyOne(files, c, base))
    ensures Find(ApplyOne(files, c, base), path) ==
            if path == c.path then ChangedBy(Find(files, path), c, base) else Find(files, path)
  {
    var after := ApplyOne(files, c, base);
    FindIsMember(base, c.path);
    var k := IndexOf(files, path);
    var l := IndexOf(after, path);
    if k < |files| {
      assert after[k].path == path && l == k;
    } else if l < |after| {
      assert l == |files|;
    } else if |after| > |files| {
      assert after[|files|].path != path;
    }
  }

  /** What the list of changes makes of one path. */
  function Outcome(entry: Option<Entry>, path: string, changes: seq<Change>, base: seq<Entry>): Option<Entry>
    requires forall k | 0 <= k < |changes| :: changes[k].status != ""
    decreases changes
  {
    if changes == [] then entry
    else
      Outcome(if changes[0].path == path then ChangedBy(entry, changes[0], base) else entry, path, changes[1..], base)
  }

  lemma {:induction false} ApplyEachFinds(files: seq<Entry>, changes: seq<Change>, base: seq<Entry>, path: string)
    requires DistinctPaths(files) && forall k | 0 <= k < |changes| :: changes[k].status != ""
    ensures DistinctPaths(ApplyEach(files, changes, base))
    ensures Find(ApplyEach(files, changes, base), path) == Outcome(Find(files, path), path, changes, base)
    decreases changes
  {
    if changes != [] {
      ApplyOneFinds(files, changes[0], base, path);
      ApplyEachFinds(ApplyOne(files, changes[0], base), changes[1..], base, path);
    }
  }

  lemma {:induction false} UnchangedPath(entry: Option<Entry>, path: string, changes: seq<Change>, base: seq<Entry>)
    requires forall k | 0 <= k < |changes| :: changes[k].status != "" && changes[k].path != path
    ensures Outcome(entry, path, changes, base) == entry
    decreases changes
  {
    if changes != [] {
      assert forall k | 0 <= k < |changes[1..]| :: changes[1..][k] == changes[k + 1];
      UnchangedPath(entry, path, changes[1..], base);
    }
  }

  lemma {:induction false} ChangedPath(entry: Option<Entry>, changes: seq<Change>, base: seq<Entry>, i: nat)
    requires i < |changes| && forall k | 0 <= k < |changes| :: changes[k].status != ""
    requires forall k | 0 <= k < |changes| && k != i :: changes[k].path != changes[i].path
    ensures Outcome(entry, changes[i].path, changes, base) == ChangedBy(entry, changes[i], base)
    decreases changes
  {
    assert forall k | 0 <= k < |changes[1..]| :: changes[1..][k] == changes[k + 1];
    if i == 0 {
      UnchangedPath(ChangedBy(entry, changes[0], base), changes[0].path, changes[1..], base);
    } else {
      ChangedPath(entry, changes[1..], base, i - 1);
    }
  }

  lemma PathOrder()
    ensures Preorder(PathLe)
  {
    forall a: Entry, b: Entry
      ensures PathLe(a, b) || PathLe(b, a)
      ensures PathLe(a, a)
    {
      LexTotal(Codes(a.path), Codes(b.path));
      LexTotal(Codes(a.path), Codes(a.path));
    }
    forall a: Entry, b: Entry, c: Entry | PathLe(a, b) && PathLe(b, c)
      ensures PathLe(a, c)
    {
      LexTransitive(Codes(a.path), Codes(b.path), Codes(c.path));
    }
  }

  lemma PermutedPaths(a: seq<Entry>, b: seq<Entry>)
    requires multiset(a) == multiset(b) && DistinctPaths(a)
    ensures DistinctPaths(b)
  {
    forall i, j | 0 <= i < j < |b|
      ensures b[i].path != b[j].path
    {
      if b[i].path == b[j].path {
        SameMembers(a, b);
        assert b[i] in a && b[j] in a;
        var k :| 0 <= k < |a| && a[k] == b[i];
        var l :| 0 <= l < |a| && a[l] == b[j];
        assert k == l;
        OccursTwice(b, i, j);
        OnceInSeq(a, k);
      }
    }
  }

  lemma OnceInSeq<T>(s: seq<T>, i: nat)
    requires i < |s| && forall k | 0 <= k < |s| && k != i :: s[k] != s[i]
    ensures multiset(s)[s[i]] == 1
  {
    assert s == s[..i] + [s[i]] + s[i + 1..];
    assert s[i] !in s[..i] && s[i] !in s[i + 1..];
  }

  /** The entry of the head tree with the change's letter and old path. */
  predicate Marks(m: Option<Entry>, e: Entry, c: Change) {
    && m.Some? && m.value.path == e.path && m.value.blob == e.blob && m.value.size == e.size && m.value.mode == e.mode
    && c.status != "" && m.value.status == [c.status[0]] && m.value.oldPath == c.oldPath
  }

  /** The entry of the base tree, deleted. */
  predicate Restores(m: Option<Entry>, e: Entry) {
    && m.Some? && m.value.path == e.path && m.value.blob == e.blob && m.value.size == e.size && m.value.mode == e.mode
    && m.value.status == "D" && m.value.oldPath == e.oldPath
  }

  lemma ChangedByIs(entry: Option<Entry>, c: Change, base: seq<Entry>)
    requires c.status != ""
    ensures entry.Some? ==> Marks(ChangedBy(entry, c, base), entry.value, c)
    ensures entry.None? && c.status == "D" && Find(base, c.path).Some? ==> Restores(ChangedBy(entry, c, base), Find(base, c.path).value)
    ensures entry.None? && !(c.status == "D" && Find(base, c.path).Some?) ==> ChangedBy(entry, c, base) == None
  {
  }

  /**
    The merged list is in the order of its paths, each there once.  A path has the entry of the head
    tree, with the letter and the old path of its change if it has one; a path that the head lacks
    is there exactly when it was deleted from the base tree, with the base entry.
   */
  lemma MergedHolds(head: seq<Entry>, changes: seq<Change>, base: seq<Entry>, path: string)
    requires DistinctPaths(head) && forall k | 0 <= k < |changes| :: changes[k].status != ""
    requires forall i, j | 0 <= i < j < |changes| :: changes[i].path != changes[j].path
    ensures var merged := Merged(head, changes, base);
            var h, b, m := Find(head, path), Find(base, path), Find(merged, path);
            && (forall i, j | 0 <= i < j < |merged| :: LexBefore(Codes(merged[i].path), Codes(merged[j].path)))
            && (forall i | 0 <= i < |changes| && changes[i].path == path ::
                  && (h.Some? ==> Marks(m, h.value, changes[i]))
                  && (h.None? && changes[i].status == "D" && b.Some? ==> Restores(m, b.value))
                  && (h.None? && !(changes[i].status == "D" && b.Some?) ==> m == None))
            && ((forall i | 0 <= i < |changes| :: changes[i].path != path) ==> m == h)
  {
    var edited, merged := ApplyEach(head, changes, base), Merged(head, changes, base);
    ApplyEachFinds(head, changes, base, path);
    PathOrder();
    SortSorts(edited, PathLe);
    PermutedPaths(edited, merged);
    SameFinds(edited, merged, path);
    SortedIsInPathOrder(merged);
    forall i | 0 <= i < |changes| && changes[i].path == path
      ensures Find(merged, path) == ChangedBy(Find(head, path), changes[i], base)
    {
      ChangedPath(Find(head, path), changes, base, i);
    }
    forall i | 0 <= i < |changes| && changes[i].path == path {
      ChangedByIs(Find(head, path), changes[i], base);
    }
    if forall i | 0 <= i < |changes| :: changes[i].path != path {
      UnchangedPath(Find(head, path), path, changes, base);
    }
  }

  lemma SortedIsInPathOrder(files: seq<Entry>)
    requires Sorted(files, PathLe) && DistinctPaths(files)
    ensures forall i, j | 0 <= i < j < |files| :: LexBefore(Codes(files[i].path), Codes(files[j].path))
  {
    forall i, j | 0 <= i < j < |files|
      ensures LexBefore(Codes(files[i].path), Codes(files[j].path))
    {
      if Codes(files[i].path) == Codes(files[j].path) {
        CodesDetermine(files[i].path, files[j].path);
        assert false;
      }
      LexIsBefore(Codes(files[i].path), Codes(files[j].path));
    }
  }

  lemma SameFinds(a: seq<Entry>, b: seq<Entry>, path: string)
    requires multiset(a) == multiset(b) && DistinctPaths(a) && DistinctPaths(b)
    ensures Find(a, path) == Find(b, path)
  {
    SameMembers(a, b);
    FindIsMember(a, path);
    FindIsMember(b, path);
    if Find(a, path).Some? {
      var e := Find(a, path).value;
      var k :| 0 <= k < |b| && b[k] == e;
      FindUnique(b, k);
    }
  }
}
