/** The streaming keyword matcher (android/cpp/src/date.h:4694-4796): it reads one character
    ahead and never puts one back. */
module ScanKeyword {
  import opened Basics

  datatype Status = DoesntMatch | MightMatch | DoesMatch

  /** toupper in the C locale. */
  function Upper(c: char): char {
    if 'a' <= c <= 'z' then c - 'a' + 'A' else c
  }

  /** t is a prefix of kw, ignoring case. */
  predicate PrefixOf(t: string, kw: string) {
    |t| <= |kw| && forall i :: 0 <= i < |t| ==> Upper(t[i]) == Upper(kw[i])
  }

  predicate Same(t: string, kw: string) {
    |t| == |kw| && PrefixOf(t, kw)
  }

  predicate PrefixOfSome(t: string, kws: seq<string>) {
    exists j :: 0 <= j < |kws| && PrefixOf(t, kws[j])
  }

  /** The first n characters are the longest prefix of the input that begins a keyword; with
      no keywords, the empty one. */
  predicate Longest(n: nat, input: string, kws: seq<string>) {
    && n <= |input| && (n == 0 || PrefixOfSome(input[..n], kws))
    && forall m :: n < m <= |input| ==> !PrefixOfSome(input[..m], kws)
  }

  /** r is the first keyword equal to t ignoring case, or the end of the list. */
  predicate FirstSame(r: nat, t: string, kws: seq<string>) {
    && r <= |kws| && (r < |kws| ==> Same(t, kws[r]))
    && forall j :: 0 <= j < r ==> !Same(t, kws[j])
  }

  /** Some keyword goes on after t. */
  predicate Undecided(t: string, kws: seq<string>) {
    exists j :: 0 <= j < |kws| && PrefixOf(t, kws[j]) && |t| < |kws[j]|
  }

  // ---- statuses -----------------------------------------------------------------------

  /** The status of a keyword once exactly t has been consumed. */
  function Expect(kw: string, t: string): Status {
    if !PrefixOf(t, kw) then DoesntMatch else if |t| == |kw| then DoesMatch else MightMatch
  }

  /** The status after the keyword has been tested against the next character c: a keyword
      that matched before still does. */
  function Tested(kw: string, t: string, c: char): Status {
    var s := Expect(kw, t);
    if s != MightMatch then s else Expect(kw, t + [c])
  }

  lemma ExpectNext(kw: string, t: string, c: char)
    requires Expect(kw, t) == MightMatch
    ensures Expect(kw, t + [c]) == if Upper(kw[|t|]) != Upper(c) then DoesntMatch
                                   else if |kw| == |t| + 1 then DoesMatch else MightMatch
  {
    var u := t + [c];
    assert forall i :: 0 <= i < |t| ==> u[i] == t[i];
    assert u[|t|] == c;
  }

  /** Clearing the matches of an earlier character gives the statuses for t + [c]. */
  lemma Cleared(kw: string, t: string, c: char)
    ensures Expect(kw, t + [c]) == if Tested(kw, t, c) == DoesMatch && |kw| != |t| + 1 then DoesntMatch else Tested(kw, t, c)
  {
    var u := t + [c];
    assert forall i :: 0 <= i < |t| ==> u[i] == t[i];
  }

  predicate Might(x: Status) {
    x == MightMatch
  }

  predicate Does(x: Status) {
    x == DoesMatch
  }

  /** Two keywords still in play make the counters exceed one. */
  lemma CountTwo(s: seq<Status>, i: nat, j: nat)
    requires i < |s| && j < |s| && i != j && s[i] != DoesntMatch && s[j] != DoesntMatch
    ensures Count(s, Might) + Count(s, Does) > 1
  {
    var s1 := s[i := DoesntMatch];
    var s2 := s1[j := DoesntMatch];
    CountSet(s, i, DoesntMatch, Might);
    CountSet(s, i, DoesntMatch, Does);
    CountSet(s1, j, DoesntMatch, Might);
    CountSet(s1, j, DoesntMatch, Does);
  }

  /** The counters equal the status populations. */
  predicate Counted(s: seq<Status>, might: nat, does: nat) {
    might == Count(s, Might) && does == Count(s, Does)
  }

  // ---- the stream ---------------------------------------------------------------------

  /** An input stream over a fixed text, with the state bits the matcher uses. */
  class IStream {
    const text: string
    var pos: nat
    var eof: bool
    var fail: bool

    predicate Valid()
      reads this
    {
      pos <= |text|
    }

    constructor (text: string)
      ensures Valid() && this.text == text && pos == 0 && !eof && !fail
    {
      this.text := text;
      pos, eof, fail := 0, false, false;
    }

    /** The next character without consuming it; a stream that is not good fails. */
    method Peek() returns (c: Option<char>)
      requires Valid()
      modifies this`eof, this`fail
      ensures Valid()
      ensures c == (if !old(eof) && !old(fail) && pos < |text| then Some(text[pos]) else None)
      ensures fail == (old(fail) || old(eof))
      ensures eof == (old(eof) || (!old(fail) && pos == |text|))
    {
      if eof || fail {
        fail := true;
        return None;
      }
      if pos == |text| {
        eof := true;
        return None;
      }
      return Some(text[pos]);
    }

    method Get()
      requires Valid() && !eof && !fail && pos < |text|
      modifies this`pos
      ensures Valid() && pos == old(pos) + 1
    {
      pos := pos + 1;
    }
  }

  // ---- the matcher --------------------------------------------------------------------

  ghost predicate Statuses(s: seq<Status>, kws: seq<string>, t: string) {
    |s| == |kws| && forall j :: 0 <= j < |s| ==> s[j] == Expect(kws[j], t)
  }

  /** The matches among the statuses are the keywords equal to t. */
  ghost predicate Decided(s: seq<Status>, kws: seq<string>, t: string) {
    |s| == |kws| && forall j :: 0 <= j < |s| ==> (s[j] == DoesMatch <==> Same(t, kws[j]))
  }

  /** Some keyword of the first k begins with t + [c]. */
  ghost predicate Wanted(kws: seq<string>, t: string, c: char, k: nat) {
    exists j :: 0 <= j < k <= |kws| && Expect(kws[j], t) == MightMatch && PrefixOf(t + [c], kws[j])
  }

  method InitStatuses(kws: seq<string>) returns (status: array<Status>, might: nat, does: nat)
    ensures fresh(status) && Statuses(status[..], kws, []) && Counted(status[..], might, does)
  {
    status := new Status[|kws|](_ => MightMatch);
    might, does := |kws|, 0;
    CountBounds(status[..], Might);
    CountBounds(status[..], Does);
    var k := 0;
    while k < |kws|
      invariant k <= |kws|
      invariant forall j :: 0 <= j < k ==> status[j] == Expect(kws[j], [])
      invariant forall j :: k <= j < |kws| ==> status[j] == MightMatch
      invariant Counted(status[..], might, does)
    {
      if kws[k] == [] {
        Recount(status[..], k, DoesMatch, might, does);
        status[k] := DoesMatch;
        might, does := might - 1, does + 1;
      }
      k := k + 1;
    }
  }

  /** One pass over the keywords with the next character. */
  method TestAll(status: array<Status>, kws: seq<string>, indx: nat, c: char, might0: nat, does0: nat, ghost t: string)
    returns (consume: bool, might: nat, does: nat)
    requires Statuses(status[..], kws, t) && |t| == indx && Counted(status[..], might0, does0)
    modifies status
    ensures forall j :: 0 <= j < |kws| ==> status[j] == Tested(kws[j], t, c)
    ensures Counted(status[..], might, does)
    ensures consume == Wanted(kws, t, c, |kws|)
  {
    consume, might, does := false, might0, does0;
    var k := 0;
    while k < |kws|
      invariant k <= |kws|
      invariant forall j :: 0 <= j < k ==> status[j] == Tested(kws[j], t, c)
      invariant forall j :: k <= j < |kws| ==> status[j] == Expect(kws[j], t)
      invariant Counted(status[..], might, does)
      invariant consume == Wanted(kws, t, c, k)
    {
      if status[k] == MightMatch {
        ExpectNext(kws[k], t, c);
        if Upper(c) == Upper(kws[k][indx]) {
          consume := true;
          assert PrefixOf(t + [c], kws[k]);
          if |kws[k]| == indx + 1 {
            Recount(status[..], k, DoesMatch, might, does);
            status[k] := DoesMatch;
            might, does := might - 1, does + 1;
          }
        } else {
          Recount(status[..], k, DoesntMatch, might, does);
          status[k] := DoesntMatch;
          might := might - 1;
        }
      }
      k := k + 1;
    }
  }

  /** The pass that drops matches of an earlier character. */
  method DropShorter(status: array<Status>, kws: seq<string>, indx: nat, might: nat, does0: nat, ghost t: string, c: char)
    returns (does: nat)
    requires status.Length == |kws| && |t| == indx && Counted(status[..], might, does0)
    requires forall j :: 0 <= j < |kws| ==> status[j] == Tested(kws[j], t, c)
    modifies status
    ensures Statuses(status[..], kws, t + [c]) && Counted(status[..], might, does)
  {
    does := does0;
    var k := 0;
    while k < |kws|
      invariant k <= |kws|
      invariant forall j :: 0 <= j < k ==> status[j] == Expect(kws[j], t + [c])
      invariant forall j :: k <= j < |kws| ==> status[j] == Tested(kws[j], t, c)
      invariant Counted(status[..], might, does)
    {
      Cleared(kws[k], t, c);
      if status[k] == DoesMatch && |kws[k]| != indx + 1 {
        Recount(status[..], k, DoesntMatch, might, does);
        status[k] := DoesntMatch;
        does := does - 1;
      }
      k := k + 1;
    }
  }

  /** Changing one status moves the counters. */
  lemma Recount(s: seq<Status>, k: nat, y: Status, might: nat, does: nat)
    requires k < |s| && Counted(s, might, does) && y != MightMatch
    ensures s[k] == MightMatch ==> might > 0 && Counted(s[k := y], might - 1, if y == DoesMatch then does + 1 else does)
    ensures s[k] == DoesMatch && y == DoesntMatch ==> does > 0 && Counted(s[k := y], might, does - 1)
  {
    CountSet(s, k, y, Might);
    CountSet(s, k, y, Does);
    CountBounds(s, Might);
    CountBounds(s, Does);
  }

  /** With one keyword in play and a character wanted, no match is left over. */
  lemma NothingToDrop(s: seq<Status>, kws: seq<string>, t: string, c: char)
    requires |s| == |kws| && forall j :: 0 <= j < |kws| ==> s[j] == Tested(kws[j], t, c)
    requires Wanted(kws, t, c, |kws|) && Count(s, Might) + Count(s, Does) <= 1
    ensures Statuses(s, kws, t + [c])
  {
    var i :| 0 <= i < |kws| && Expect(kws[i], t) == MightMatch && PrefixOf(t + [c], kws[i]);
    forall j | 0 <= j < |kws| ensures s[j] == Expect(kws[j], t + [c]) {
      Cleared(kws[j], t, c);
      if s[j] != DoesntMatch && i != j {
        CountTwo(s, i, j);
      }
    }
  }

  /** A longer prefix that begins a keyword begins it in its first characters too. */
  lemma ShorterPrefix(input: string, m: nat, n: nat, kw: string)
    requires n <= m <= |input| && PrefixOf(input[..m], kw)
    ensures PrefixOf(input[..n], kw)
  {
    assert forall i :: 0 <= i < n ==> input[..n][i] == input[..m][i];
  }

  /** Nothing might match any more: no keyword goes on after t. */
  lemma NoneLeft(s: seq<Status>, kws: seq<string>, input: string, n: nat)
    requires n <= |input| && Statuses(s, kws, input[..n]) && Count(s, Might) == 0
    requires n == 0 || PrefixOfSome(input[..n], kws)
    ensures Longest(n, input, kws)
  {
    CountBounds(s, Might);
    forall m | n < m <= |input| ensures !PrefixOfSome(input[..m], kws) {
      forall j | 0 <= j < |kws| ensures !PrefixOf(input[..m], kws[j]) {
        assert s[j] != MightMatch;
        if PrefixOf(input[..m], kws[j]) {
          ShorterPrefix(input, m, n, kws[j]);
        }
      }
    }
  }

  lemma MightIsUndecided(s: seq<Status>, kws: seq<string>, t: string)
    requires Statuses(s, kws, t)
    ensures Count(s, Might) > 0 <==> Undecided(t, kws)
  {
    CountBounds(s, Might);
    forall j | 0 <= j < |kws| ensures s[j] == MightMatch <==> PrefixOf(t, kws[j]) && |t| < |kws[j]| {
    }
  }

  /** No keyword wants the next character. */
  lemma NoneWants(kws: seq<string>, input: string, n: nat)
    requires n < |input| && !Wanted(kws, input[..n], input[n], |kws|)
    requires n == 0 || PrefixOfSome(input[..n], kws)
    ensures Longest(n, input, kws)
  {
    assert input[..n + 1] == input[..n] + [input[n]];
    forall m | n < m <= |input| ensures !PrefixOfSome(input[..m], kws) {
      forall j | 0 <= j < |kws| ensures !PrefixOf(input[..m], kws[j]) {
        if PrefixOf(input[..m], kws[j]) {
          ShorterPrefix(input, m, n + 1, kws[j]);
          ShorterPrefix(input, m, n, kws[j]);
        }
      }
    }
  }

  /** When the character was not wanted, the matches stand and nothing might match. */
  lemma NotWanted(s: seq<Status>, kws: seq<string>, t: string, c: char)
    requires |s| == |kws| && forall j :: 0 <= j < |kws| ==> s[j] == Tested(kws[j], t, c)
    requires !Wanted(kws, t, c, |kws|)
    ensures Decided(s, kws, t) && Count(s, Might) == 0
  {
    forall j | 0 <= j < |kws| ensures s[j] != MightMatch && (s[j] == DoesMatch <==> Same(t, kws[j])) {
      if Expect(kws[j], t) == MightMatch {
        assert !PrefixOf(t + [c], kws[j]);
      }
    }
    CountBounds(s, Might);
  }

  /** One round of the outer loop: test every keyword, consume if one wanted the character,
      then drop the matches it made too short. */
  method Round(stm: IStream, status: array<Status>, kws: seq<string>, indx: nat, c: char, might0: nat, does0: nat, ghost t: string)
    returns (consume: bool, might: nat, does: nat)
    requires stm.Valid() && !stm.eof && !stm.fail && stm.pos < |stm.text| && stm.text[stm.pos] == c
    requires Statuses(status[..], kws, t) && |t| == indx && Counted(status[..], might0, does0)
    modifies stm`pos, status
    ensures stm.Valid() && stm.pos == old(stm.pos) + if consume then 1 else 0
    ensures Counted(status[..], might, does) && consume == Wanted(kws, t, c, |kws|)
    ensures if consume then Statuses(status[..], kws, t + [c]) else might == 0 && Decided(status[..], kws, t)
  {
    consume, might, does := TestAll(status, kws, indx, c, might0, does0, t);
    if consume {
      stm.Get();
      if might + does > 1 {
        does := DropShorter(status, kws, indx, might, does, t, c);
      } else {
        NothingToDrop(status[..], kws, t, c);
      }
    } else {
      NotWanted(status[..], kws, t, c);
    }
  }

  /** What has been consumed when the loop ends on its own: the stream was bad from the start,
      or nothing might match. */
  ghost predicate Progress(s: seq<Status>, kws: seq<string>, input: string, n: nat, might: nat, bad: bool) {
    && n <= |input| && (bad ==> n == 0) && (n == 0 || PrefixOfSome(input[..n], kws))
    && Decided(s, kws, input[..n])
    && (might > 0 || bad ==> Statuses(s, kws, input[..n]))
    && (might == 0 ==> Longest(n, input, kws) && (Undecided(input[..n], kws) ==> n < |input|))
  }

  lemma ProgressConsumed(s: seq<Status>, kws: seq<string>, input: string, n: nat, might: nat, does: nat)
    requires n < |input| && Statuses(s, kws, input[..n] + [input[n]]) && Counted(s, might, does)
    requires Wanted(kws, input[..n], input[n], |kws|)
    ensures Progress(s, kws, input, n + 1, might, false)
  {
    var t := input[..n + 1];
    assert t == input[..n] + [input[n]];
    MightIsUndecided(s, kws, t);
    if might == 0 {
      NoneLeft(s, kws, input, n + 1);
    }
  }

  lemma ProgressStart(s: seq<Status>, kws: seq<string>, input: string, might: nat, does: nat, bad: bool)
    requires Statuses(s, kws, []) && Counted(s, might, does)
    ensures Progress(s, kws, input, 0, might, bad)
  {
    assert input[..0] == [];
    MightIsUndecided(s, kws, []);
    if might == 0 {
      NoneLeft(s, kws, input, 0);
    }
  }

  /** scan_keyword. On a stream that can be read, what is consumed is the longest prefix of
      the input that begins a keyword, and the result is the first keyword equal to it. The
      end of the input is noticed only while some keyword goes on. */
  method Scan(stm: IStream, kws: seq<string>) returns (r: nat)
    requires stm.Valid()
    modifies stm
    ensures stm.Valid() && old(stm.pos) <= stm.pos
    ensures if old(stm.fail) || old(stm.eof) then stm.pos == old(stm.pos)
            else Longest(stm.pos - old(stm.pos), stm.text[old(stm.pos)..], kws)
    ensures FirstSame(r, stm.text[old(stm.pos)..stm.pos], kws)
    ensures stm.fail <==> old(stm.fail) || r == |kws| || (old(stm.eof) && Undecided([], kws))
    ensures stm.eof <==> old(stm.eof) || (!old(stm.fail) && stm.pos == |stm.text| && Undecided(stm.text[old(stm.pos)..stm.pos], kws))
  {
    var status, might, does := InitStatuses(kws);
    ghost var input := stm.text[stm.pos..];
    ghost var n := ReadKeyword(stm, status, kws, might, does, input);
    assert stm.text[old(stm.pos)..stm.pos] == input[..n];
    assert input[..0] == [];
    r := FirstMatch(status, kws);
    if r == |kws| {
      stm.fail := true;
    }
  }

  /** The outer loop: n characters are consumed, and the matches are the keywords equal to
      them. */
  method ReadKeyword(stm: IStream, status: array<Status>, kws: seq<string>, might0: nat, does0: nat, ghost input: string)
    returns (ghost n: nat)
    requires stm.Valid() && input == stm.text[stm.pos..]
    requires Statuses(status[..], kws, []) && Counted(status[..], might0, does0)
    modifies stm, status
    ensures n <= |input| && stm.pos == old(stm.pos) + n
    ensures Decided(status[..], kws, input[..n])
    ensures if old(stm.fail) || old(stm.eof) then n == 0 else Longest(n, input, kws)
    ensures stm.fail == (old(stm.fail) || (old(stm.eof) && Undecided([], kws)))
    ensures stm.eof == (old(stm.eof) || (!old(stm.fail) && n == |input| && Undecided(input[..n], kws)))
  {
    ghost var bad := stm.fail || stm.eof;
    var might, does := might0, does0;
    ProgressStart(status[..], kws, input, might, does, bad);
    n := 0;
    var indx := 0;
    while !stm.fail && might > 0
      invariant status.Length == |kws|
      invariant n <= |input| && stm.pos == old(stm.pos) + n && stm.fail == old(stm.fail) && stm.eof == old(stm.eof)
      invariant Counted(status[..], might, does)
      invariant Progress(status[..], kws, input, n, might, bad)
      invariant might > 0 || bad ==> indx == n
      decreases |input| - n, might
    {
      MightIsUndecided(status[..], kws, input[..n]);
      var ic := stm.Peek();
      if ic.None? {
        stm.eof := true;
        AtEnd(status[..], kws, input, n, might, bad);
        return;
      }
      assert ic.value == input[n];
      var consume;
      consume, might, does := Round(stm, status, kws, indx, ic.value, might, does, input[..n]);
      if consume {
        ProgressConsumed(status[..], kws, input, n, might, does);
        n := n + 1;
      } else {
        NoneWants(kws, input, n);
      }
      indx := indx + 1;
    }
    if bad {
      MightIsUndecided(status[..], kws, input[..n]);
    }
    assert input[..0] == [];
  }

  lemma AtEnd(s: seq<Status>, kws: seq<string>, input: string, n: nat, might: nat, bad: bool)
    requires Progress(s, kws, input, n, might, bad) && (bad || n == |input|)
    ensures bad || Longest(n, input, kws)
    ensures bad ==> input[..n] == []
  {
  }

  method FirstMatch(status: array<Status>, kws: seq<string>) returns (r: nat)
    requires status.Length == |kws|
    ensures r <= |kws| && (r < |kws| ==> status[r] == DoesMatch)
    ensures forall j :: 0 <= j < r ==> status[j] != DoesMatch
  {
    r := 0;
    while r < |kws| && status[r] != DoesMatch
      invariant r <= |kws|
      invariant forall j :: 0 <= j < r ==> status[j] != DoesMatch
    {
      r := r + 1;
    }
  }

  // ---- what the result means for a caller ---------------------------------------------

  /** A keyword that begins the input is read, and one at least as early is returned, exactly
      when no keyword begins with one character more of the input. */
  lemma KeywordReadIff(input: string, kws: seq<string>, j: nat, n: nat, r: nat)
    requires j < |kws| && |kws[j]| <= |input| && Same(input[..|kws[j]|], kws[j])
    requires Longest(n, input, kws) && FirstSame(r, input[..n], kws)
    ensures n == |kws[j]| <==> |kws[j]| == |input| || !PrefixOfSome(input[..|kws[j]| + 1], kws)
    ensures n == |kws[j]| ==> r <= j
  {
    var k := |kws[j]|;
    assert PrefixOfSome(input[..k], kws);
    if k < n {
      var i :| 0 <= i < |kws| && PrefixOf(input[..n], kws[i]);
      ShorterPrefix(input, n, k + 1, kws[i]);
    }
  }

  /** Otherwise the keyword is lost: what was read beyond it is not put back. */
  lemma NearMissLoses()
    ensures var kws, input := ["May", "maybe"], "MAYBX";
            Same(input[..3], kws[0]) && Longest(4, input, kws) && FirstSame(2, input[..4], kws)
  {
    var kws, input := ["May", "maybe"], "MAYBX";
    assert PrefixOf(input[..4], kws[1]);
    forall m | 4 < m <= 5 ensures !PrefixOfSome(input[..m], kws) {
      assert input[..m][4] == 'X' && Upper(kws[1][4]) == 'E';
    }
    assert !Same(input[..4], kws[0]) && !Same(input[..4], kws[1]);
  }
}
