/**
  Counting the entries of `git status --porcelain=v1 -z`: two status letters, a space and a path,
  ended by NUL; a renamed or copied entry is followed by the path it came from.
 */
module StatusCount {
  import opened Wrappers
  import opened Strings

  const NUL: char := '\0'

  datatype StatusEntry = StatusEntry(x: char, y: char, path: string, origin: Option<string>)

  predicate Moved(x: char, y: char) {
    x in {'R', 'C'} || y in {'R', 'C'}
  }

  /** Only a moved entry has an origin; its path may be any text, even an empty one. */
  predicate WellFormed(e: StatusEntry) {
    && e.x != NUL && e.y != NUL && NUL !in e.path
    && (e.origin.Some? <==> Moved(e.x, e.y))
    && (e.origin.Some? ==> NUL !in e.origin.value)
  }

  function Label(e: StatusEntry): string {
    [e.x, e.y, ' '] + e.path
  }

  function TokensOf(e: StatusEntry): seq<string> {
    if e.origin.Some? then [Label(e), e.origin.value] else [Label(e)]
  }

  function Tokens(entries: seq<StatusEntry>): seq<string> {
    if entries == [] then [] else TokensOf(entries[0]) + Tokens(entries[1..])
  }

  /** Whether the first two characters, or the one there is, mark a move. */
  predicate MarksMove(token: string) {
    (|token| > 0 && token[0] in {'R', 'C'}) || (|token| > 1 && token[1] in {'R', 'C'})
  }

  /** The entries from a position on: up to the first empty token, two tokens for a move. */
  function Counted(tokens: seq<string>, position: nat): nat
    decreases |tokens| - position
  {
    if position >= |tokens| || tokens[position] == "" then 0
    else 1 + Counted(tokens, position + (if MarksMove(tokens[position]) then 2 else 1))
  }

  method CountEntries(output: string) returns (count: nat, dirty: bool)
    ensures count == Counted(Split(output, NUL), 0) && dirty == (count != 0)
  {
    var entries := Split(output, NUL);
    var position := 0;
    count := 0;
    while position < |entries| && entries[position] != ""
      invariant count + Counted(entries, position) == Counted(entries, 0)
      decreases |entries| - position
    {
      count := count + 1;
      position := position + (if MarksMove(entries[position]) then 2 else 1);
    }
    dirty := count != 0;
  }

  lemma {:induction false} TokensAreWhole(entries: seq<StatusEntry>)
    requires forall e | e in entries :: WellFormed(e)
    ensures forall t | t in Tokens(entries) :: NUL !in t
  {
    if entries != [] {
      assert entries[0] in entries && forall e | e in entries[1..] :: e in entries;
      TokensAreWhole(entries[1..]);
    }
  }

  lemma {:induction false} CountedTokens(before: seq<string>, entries: seq<StatusEntry>)
    requires forall e | e in entries :: WellFormed(e)
    ensures Counted(before + Tokens(entries) + [""], |before|) == |entries|
    decreases |entries|
  {
    if entries != [] {
      assert entries[0] in entries && forall e | e in entries[1..] :: e in entries;
      var first := TokensOf(entries[0]);
      var all := before + Tokens(entries) + [""];
      assert all == (before + first) + Tokens(entries[1..]) + [""];
      CountedTokens(before + first, entries[1..]);
      assert all[|before|] == Label(entries[0]);
    }
  }

  /** What git prints for any entries is counted as that many; the tree is dirty exactly when there are any. */
  lemma EveryEntryIsCounted(entries: seq<StatusEntry>)
    requires forall e | e in entries :: WellFormed(e)
    ensures Counted(Split(Ended(Tokens(entries), NUL), NUL), 0) == |entries|
  {
    var tokens := Tokens(entries);
    TokensAreWhole(entries);
    SplitEnded(tokens, NUL);
    CountedTokens([], entries);
    assert [] + tokens == tokens;
  }
}
