/**
 * Identifier allocation for uploaded files (`add_record` in main.py).
 *
 * A candidate identifier is a random token, a dot, and the last
 * dot-separated segment of the original filename. Candidates are drawn
 * until one is not yet a key of the `files` table. The random tokens
 * (`uuid4().hex` in the source) are an input sequence here: the i-th
 * draw uses tokens[i]. The source draws forever; the model stops with
 * `Exhausted` when the supplied tokens run out.
 */
module Identifiers {

  /** `filename.split(".")[-1]`: the text after the last '.', or the whole name when it has none. */
  function LastSegment(filename: string): string
    decreases |filename|
  {
    if |filename| == 0 then ""
    else if filename[|filename| - 1] == '.' then ""
    else LastSegment(filename[..|filename| - 1]) + [filename[|filename| - 1]]
  }

  /**
   * The segment has no '.', ends the filename, and is preceded by a '.'
   * unless it is the whole filename, which it is when the name has no '.'.
   */
  lemma {:induction false} LastSegmentShape(filename: string)
    ensures var r := LastSegment(filename);
      && '.' !in r
      && |r| <= |filename| && filename[|filename| - |r|..] == r
      && (|r| < |filename| ==> filename[|filename| - |r| - 1] == '.')
      && ('.' !in filename ==> r == filename)
    decreases |filename|
  {
    if |filename| > 0 && filename[|filename| - 1] != '.' {
      var init := filename[..|filename| - 1];
      LastSegmentShape(init);
      var r0 := LastSegment(init);
      assert filename == init + [filename[|filename| - 1]];
      assert filename[|filename| - |r0| - 1..] == init[|init| - |r0|..] + [filename[|filename| - 1]];
    }
  }

  /** The candidate identifier built from one random token. */
  function Candidate(token: string, filename: string): string
  {
    token + "." + LastSegment(filename)
  }

  /** The last segment of a name that ends in '.' followed by dot-free text is that text. */
  lemma {:induction false} LastSegmentAfterDot(prefix: string, ext: string)
    requires '.' !in ext
    ensures LastSegment(prefix + "." + ext) == ext
    decreases |ext|
  {
    var s := prefix + "." + ext;
    if |ext| > 0 {
      var init := ext[..|ext| - 1];
      assert s[..|s| - 1] == prefix + "." + init;
      assert s[|s| - 1] == ext[|ext| - 1];
      LastSegmentAfterDot(prefix, init);
      assert init + [ext[|ext| - 1]] == ext;
    }
  }

  /** The identifier keeps the file's extension: splitting it again yields the same last segment. */
  lemma CandidateKeepsExtension(token: string, filename: string)
    ensures LastSegment(Candidate(token, filename)) == LastSegment(filename)
    ensures Candidate(token, filename)[..|token|] == token
  {
    LastSegmentShape(filename);
    LastSegmentAfterDot(token, LastSegment(filename));
  }

  /** For a fixed filename, different tokens give different candidates. */
  lemma CandidateInjective(t1: string, t2: string, filename: string)
    requires Candidate(t1, filename) == Candidate(t2, filename)
    ensures t1 == t2
  {
    CandidateKeepsExtension(t1, filename);
    CandidateKeepsExtension(t2, filename);
  }

  /** Outcome of the collision loop: the free identifier and how many tokens were drawn, or no free candidate. */
  datatype Allocation = Allocated(id: string, attempts: nat) | Exhausted

  /** The first n candidates all name existing records. */
  ghost predicate Collides(table: map<string, string>, filename: string, tokens: seq<string>, n: nat)
    requires n <= |tokens|
  {
    forall j :: 0 <= j < n ==> Candidate(tokens[j], filename) in table
  }

  /**
   * What the collision loop promises: an allocated identifier is the
   * candidate of the first token whose candidate is free, and every
   * earlier candidate collided; `Exhausted` means every token collided.
   */
  ghost predicate IsOutcome(table: map<string, string>, filename: string, tokens: seq<string>, r: Allocation)
  {
    match r
    case Allocated(id, attempts) =>
      1 <= attempts <= |tokens|
      && Collides(table, filename, tokens, attempts - 1)
      && id == Candidate(tokens[attempts - 1], filename)
      && id !in table
    case Exhausted =>
      Collides(table, filename, tokens, |tokens|)
  }

  /** Reference definition of the loop's result, one token at a time. */
  function FirstFree(table: map<string, string>, filename: string, tokens: seq<string>): (r: Allocation)
    ensures IsOutcome(table, filename, tokens, r)
    decreases |tokens|
  {
    if |tokens| == 0 then Exhausted
    else if Candidate(tokens[0], filename) !in table then Allocated(Candidate(tokens[0], filename), 1)
    else
      match FirstFree(table, filename, tokens[1..])
      case Exhausted => Exhausted
      case Allocated(id, n) => Allocated(id, n + 1)
  }

  /** At most one result meets the loop's promise. */
  lemma OutcomeUnique(table: map<string, string>, filename: string, tokens: seq<string>, r1: Allocation, r2: Allocation)
    requires IsOutcome(table, filename, tokens, r1) && IsOutcome(table, filename, tokens, r2)
    ensures r1 == r2
  {
  }

  /**
   * The collision loop of `add_record`: look the candidate up, and while
   * a row with that id exists draw the next token.
   */
  method Allocate(table: map<string, string>, filename: string, tokens: seq<string>) returns (r: Allocation)
    ensures IsOutcome(table, filename, tokens, r)
    ensures r == FirstFree(table, filename, tokens)
  {
    if |tokens| == 0 {
      r := Exhausted;
      OutcomeUnique(table, filename, tokens, r, FirstFree(table, filename, tokens));
      return;
    }
    var k := 0;
    var newId := Candidate(tokens[0], filename);
    while newId in table
      invariant 0 <= k < |tokens|
      invariant newId == Candidate(tokens[k], filename)
      invariant forall j :: 0 <= j < k ==> Candidate(tokens[j], filename) in table
      decreases |tokens| - k
    {
      if k + 1 == |tokens| {
        r := Exhausted;
        OutcomeUnique(table, filename, tokens, r, FirstFree(table, filename, tokens));
        return;
      }
      k := k + 1;
      newId := Candidate(tokens[k], filename);
    }
    r := Allocated(newId, k + 1);
    OutcomeUnique(table, filename, tokens, r, FirstFree(table, filename, tokens));
  }

  /** No token is drawn twice (what a 128-bit random source gives in practice). */
  predicate Distinct(tokens: seq<string>)
  {
    forall i, j :: 0 <= i < j < |tokens| ==> tokens[i] != tokens[j]
  }

  /** The set of candidate identifiers of a token sequence. */
  ghost function CandidateSet(filename: string, tokens: seq<string>): set<string>
    decreases |tokens|
  {
    if |tokens| == 0 then {} else {Candidate(tokens[0], filename)} + CandidateSet(filename, tokens[1..])
  }

  lemma {:induction false} CandidateSetMember(filename: string, tokens: seq<string>, t: string)
    requires t !in tokens
    ensures Candidate(t, filename) !in CandidateSet(filename, tokens)
    decreases |tokens|
  {
    if |tokens| > 0 {
      if Candidate(t, filename) == Candidate(tokens[0], filename) {
        CandidateInjective(t, tokens[0], filename);
      }
      CandidateSetMember(filename, tokens[1..], t);
    }
  }

  lemma {:induction false} CandidateSetSize(filename: string, tokens: seq<string>)
    requires Distinct(tokens)
    ensures |CandidateSet(filename, tokens)| == |tokens|
    decreases |tokens|
  {
    if |tokens| > 0 {
      assert tokens[0] !in tokens[1..] by {
        forall j | 0 <= j < |tokens[1..]| ensures tokens[1..][j] != tokens[0] {
          assert tokens[1..][j] == tokens[j + 1];
        }
      }
      CandidateSetMember(filename, tokens[1..], tokens[0]);
      CandidateSetSize(filename, tokens[1..]);
    }
  }

  lemma {:induction false} CandidateSetInTable(table: map<string, string>, filename: string, tokens: seq<string>)
    requires Collides(table, filename, tokens, |tokens|)
    ensures CandidateSet(filename, tokens) <= table.Keys
    decreases |tokens|
  {
    if |tokens| > 0 {
      assert Candidate(tokens[0], filename) in table;
      assert Collides(table, filename, tokens[1..], |tokens| - 1) by {
        forall j | 0 <= j < |tokens| - 1 ensures Candidate(tokens[1..][j], filename) in table {
          assert tokens[1..][j] == tokens[j + 1];
        }
      }
      CandidateSetInTable(table, filename, tokens[1..]);
    }
  }

  /**
   * With more distinct tokens than rows in the table, allocation always
   * succeeds: the loop cannot be kept spinning by collisions alone.
   */
  lemma AllocationSucceeds(table: map<string, string>, filename: string, tokens: seq<string>)
    requires Distinct(tokens) && |tokens| > |table|
    ensures FirstFree(table, filename, tokens).Allocated?
  {
    if FirstFree(table, filename, tokens).Exhausted? {
      CandidateSetInTable(table, filename, tokens);
      CandidateSetSize(filename, tokens);
      SubsetCard(CandidateSet(filename, tokens), table.Keys);
      assert false;
    }
  }

  lemma SubsetCard(a: set<string>, b: set<string>)
    requires a <= b
    ensures |a| <= |b|
  {
    assert b == a + (b - a);
  }
}
