/** Splitting a command line into words in place. */
module Tokens {
  import opened Containers
  import opened Bytes

  const SPACE: Byte := 32

  // ------------------------------------------------------------------- words

  /** The first position from i on that holds no space, or the end. */
  function Skip(line: seq<Byte>, i: nat): (p: nat)
    requires i <= |line|
    ensures i <= p <= |line| && (p < |line| ==> line[p] != SPACE) && forall k :: i <= k < p ==> line[k] == SPACE
    decreases |line| - i
  {
    if i == |line| || line[i] != SPACE then i else Skip(line, i + 1)
  }

  /** The first position from i on that holds a space, or the end. */
  function WordEnd(line: seq<Byte>, i: nat): (q: nat)
    requires i <= |line|
    ensures i <= q <= |line| && (q < |line| ==> line[q] == SPACE) && forall k :: i <= k < q ==> line[k] != SPACE
    decreases |line| - i
  {
    if i == |line| || line[i] == SPACE then i else WordEnd(line, i + 1)
  }

  /** The non-empty stretches between spaces from i on, in order. */
  function WordsFrom(line: seq<Byte>, i: nat): seq<seq<Byte>>
    requires i <= |line|
    decreases |line| - i
  {
    var p := Skip(line, i);
    if p == |line| then [] else
      var q := WordEnd(line, p);
      [line[p..q]] + WordsFrom(line, q)
  }

  function Words(line: seq<Byte>): seq<seq<Byte>> { WordsFrom(line, 0) }

  /** A word of a C string: non-empty, without spaces or nulls. */
  predicate IsWord(w: seq<Byte>) { w != [] && NullFree(w) && forall i :: 0 <= i < |w| ==> w[i] != SPACE }

  lemma {:induction false} WordsAreWords(line: seq<Byte>, i: nat, k: nat)
    requires i <= |line| && k < |WordsFrom(line, i)| && NullFree(line)
    ensures IsWord(WordsFrom(line, i)[k])
    decreases |line| - i
  {
    if k > 0 {
      WordsAreWords(line, WordEnd(line, Skip(line, i)), k - 1);
    }
  }

  /** What is left of a line without its spaces. */
  function Letters(line: seq<Byte>): seq<Byte> {
    if line == [] then [] else (if line[0] == SPACE then [] else [line[0]]) + Letters(line[1..])
  }

  /** Words in a row. */
  function Flat(words: seq<seq<Byte>>): seq<Byte> { if words == [] then [] else words[0] + Flat(words[1..]) }

  lemma {:induction false} LettersFrom(line: seq<Byte>, i: nat, j: nat)
    requires i <= j <= |line|
    requires (forall k :: i <= k < j ==> line[k] == SPACE) || (forall k :: i <= k < j ==> line[k] != SPACE)
    ensures Letters(line[i..]) == (if i < j && line[i] != SPACE then line[i..j] else []) + Letters(line[j..])
    decreases j - i
  {
    if i < j {
      assert line[i..][1..] == line[i + 1..];
      LettersFrom(line, i + 1, j);
    }
  }

  /** Every character that is no space is in a word, in the order of the line. */
  lemma {:induction false} WordsCoverLine(line: seq<Byte>, i: nat)
    requires i <= |line|
    ensures Flat(WordsFrom(line, i)) == Letters(line[i..])
    decreases |line| - i
  {
    var p := Skip(line, i);
    LettersFrom(line, i, p);
    if p < |line| {
      var q := WordEnd(line, p);
      LettersFrom(line, p, q);
      WordsCoverLine(line, q);
    }
  }

  /** A word stands in the line between spaces or ends of the line. */
  lemma {:induction false} WordsAreWhole(line: seq<Byte>, i: nat, k: nat) returns (p: nat)
    requires i <= |line| && k < |WordsFrom(line, i)| && (i == 0 || i == |line| || line[i - 1] == SPACE || line[i] == SPACE)
    ensures var w := WordsFrom(line, i)[k];
      && i <= p && p + |w| <= |line| && line[p..p + |w|] == w
      && (p == 0 || line[p - 1] == SPACE) && (p + |w| == |line| || line[p + |w|] == SPACE)
    decreases |line| - i
  {
    p := Skip(line, i);
    if k > 0 {
      p := WordsAreWhole(line, WordEnd(line, p), k - 1);
    }
  }

  /** Words joined by single spaces. */
  function Join(words: seq<seq<Byte>>): seq<Byte> {
    if words == [] then [] else words[0] + [SPACE] + Join(words[1..])
  }

  lemma {:induction false} SkipShift(a: seq<Byte>, b: seq<Byte>, i: nat)
    requires i <= |b|
    ensures Skip(a + b, |a| + i) == |a| + Skip(b, i)
    decreases |b| - i
  {
    if i < |b| && b[i] == SPACE {
      SkipShift(a, b, i + 1);
      assert (a + b)[|a| + i] == SPACE;
    } else if i < |b| {
      assert (a + b)[|a| + i] == b[i];
    }
  }

  lemma {:induction false} WordEndShift(a: seq<Byte>, b: seq<Byte>, i: nat)
    requires i <= |b|
    ensures WordEnd(a + b, |a| + i) == |a| + WordEnd(b, i)
    decreases |b| - i
  {
    if i < |b| && b[i] != SPACE {
      WordEndShift(a, b, i + 1);
      assert (a + b)[|a| + i] == b[i];
    } else if i < |b| {
      assert (a + b)[|a| + i] == SPACE;
    }
  }

  lemma SliceShift(a: seq<Byte>, b: seq<Byte>, p: nat, q: nat)
    requires p <= q <= |b|
    ensures (a + b)[|a| + p..|a| + q] == b[p..q]
  {
  }

  /** What stands before a position does not matter for the words after it. */
  lemma {:induction false} WordsShift(a: seq<Byte>, b: seq<Byte>, i: nat)
    requires i <= |b|
    ensures WordsFrom(a + b, |a| + i) == WordsFrom(b, i)
    decreases |b| - i
  {
    hide Skip, WordEnd;
    var p := Skip(b, i);
    SkipShift(a, b, i);
    if p < |b| {
      var q := WordEnd(b, p);
      WordEndShift(a, b, p);
      SliceShift(a, b, p, q);
      WordsShift(a, b, q);
    }
  }

  /** Splitting words that were joined gives the words. */
  lemma {:induction false} SplitJoin(words: seq<seq<Byte>>)
    requires forall k :: 0 <= k < |words| ==> IsWord(words[k])
    ensures Words(Join(words)) == words
  {
    if words != [] {
      var w, rest := words[0], Join(words[1..]);
      var line := Join(words);
      assert line == (w + [SPACE]) + rest;
      assert Skip(line, 0) == 0;
      FirstEnd(w, rest);
      assert line[0..|w|] == w;
      PassSpace(line, |w|);
      WordsShift(w + [SPACE], rest, 0);
      SplitJoin(words[1..]);
    }
  }

  lemma FirstEnd(w: seq<Byte>, rest: seq<Byte>)
    requires IsWord(w)
    ensures WordEnd((w + [SPACE]) + rest, 0) == |w|
  {
    var line := (w + [SPACE]) + rest;
    assert line[|w|] == SPACE;
    assert forall k :: 0 <= k < |w| ==> line[k] == w[k];
  }

  /** A space after a word may be passed over. */
  lemma PassSpace(line: seq<Byte>, q: nat)
    requires q < |line| && line[q] == SPACE
    ensures WordsFrom(line, q) == WordsFrom(line, q + 1)
  {
    assert Skip(line, q) == Skip(line, q + 1);
  }

  // ---------------------------------------------------------------- strtok_r

  /** From `start` on, the buffer still holds the line and its null. */
  ghost predicate StillHolds(s: seq<Byte>, line: seq<Byte>, start: nat) {
    && start <= |line| < |s| && s[|line|] == 0 && NullFree(line)
    && forall i :: start <= i < |line| ==> s[i] == line[i]
  }

  /** Word w stands at p, with a null after it. */
  ghost predicate Stands(s: seq<Byte>, p: nat, w: seq<Byte>) {
    p + |w| < |s| && s[p..p + |w|] == w && s[p + |w|] == 0
  }

  /** The next word from `start` on, ended by a null where a space was; `save` is where
      to go on. */
  method NextToken(s: array<Byte>, start: nat, ghost line: seq<Byte>) returns (token: Option<nat>, save: nat)
    requires StillHolds(s[..], line, start)
    modifies s
    ensures StillHolds(s[..], line, save) && start <= save
    ensures
      var p := Skip(line, start);
      if p == |line| then token.None? && save == |line| else
        var q := WordEnd(line, p);
        && token == Some(p) && save == (if q < |line| then q + 1 else q)
        && Stands(s[..], p, line[p..q])
    ensures forall i :: 0 <= i < s.Length && !(start <= i < save) ==> s[i] == old(s[i])
  {
    var p := start;
    while s[p] == 0 || s[p] == SPACE
      invariant start <= p <= |line| && Skip(line, start) == Skip(line, p)
      invariant s[..] == old(s[..])
      decreases |line| - p
    {
      if s[p] == 0 {
        return None, p;
      }
      p := p + 1;
    }
    var q := p;
    while !(s[q] == 0 || s[q] == SPACE)
      invariant p <= q <= |line| && WordEnd(line, p) == WordEnd(line, q)
      invariant s[..] == old(s[..])
      decreases |line| - q
    {
      q := q + 1;
    }
    token := Some(p);
    assert s[p..q] == line[p..q];
    if s[q] != 0 {
      s[q] := 0;
      save := q + 1;
    } else {
      save := q;
    }
    assert s[p..q] == line[p..q];
  }

  // ------------------------------------------------------- parse_command_string

  /** The first k words stand where argv points, ended before `save`. */
  ghost predicate Found(s: seq<Byte>, argv: seq<Option<nat>>, words: seq<seq<Byte>>, k: nat, save: nat, end: nat) {
    && k <= |argv| && k <= |words|
    && forall j {:trigger words[j]} :: 0 <= j < k ==>
         && argv[j].Some? && Stands(s, argv[j].value, words[j])
         && (argv[j].value + |words[j]| < save || save == end)
  }

  lemma FoundStays(s: seq<Byte>, t: seq<Byte>, argv: seq<Option<nat>>, argv': seq<Option<nat>>,
                   words: seq<seq<Byte>>, k: nat, save: nat, save': nat, end: nat)
    requires Found(s, argv, words, k, save, end) && |t| == |s| && save <= save' <= end
    requires forall i :: 0 <= i < |s| && !(save <= i < save') ==> t[i] == s[i]
    requires k <= |argv'| && forall j :: 0 <= j < k ==> argv'[j] == argv[j]
    ensures Found(t, argv', words, k, save', end)
  {
    forall j | 0 <= j < k
      ensures argv'[j].Some? && Stands(t, argv'[j].value, words[j])
      ensures argv'[j].value + |words[j]| < save' || save' == end
    {
      var w := words[j];
      var p := argv[j].value;
      assert t[p..p + |w|] == s[p..p + |w|];
    }
  }

  lemma FoundMore(s: seq<Byte>, argv: seq<Option<nat>>, words: seq<seq<Byte>>, k: nat, save: nat, end: nat)
    requires Found(s, argv, words, k, save, end) && k < |argv| && k < |words|
    requires argv[k].Some? && Stands(s, argv[k].value, words[k]) && (argv[k].value + |words[k]| < save || save == end)
    ensures Found(s, argv, words, k + 1, save, end)
  {
    forall j | 0 <= j < k + 1
      ensures argv[j].Some? && Stands(s, argv[j].value, words[j])
      ensures argv[j].value + |words[j]| < save || save == end
    {
      var w := words[j];
    }
  }

  /** One more word, or the end of the line. */
  lemma WordsStep(line: seq<Byte>, words: seq<seq<Byte>>, k: nat, start: nat, save: nat)
    requires start <= |line| && k <= |words| && words[k..] == WordsFrom(line, start)
    requires
      var p := Skip(line, start);
      p < |line| ==> save == if WordEnd(line, p) < |line| then WordEnd(line, p) + 1 else WordEnd(line, p)
    ensures
      var p := Skip(line, start);
      if p == |line| then k == |words| else
        && k < |words| && words[k] == line[p..WordEnd(line, p)] && words[k + 1..] == WordsFrom(line, save)
  {
    var p := Skip(line, start);
    if p < |line| {
      var q := WordEnd(line, p);
      if q < |line| { PassSpace(line, q); }
      assert words[k..][0] == line[p..q] && words[k..][1..] == words[k + 1..];
    }
  }

  /** Stores the next word's position, or a null pointer, in argv[k]. */
  method StoreToken(s: array<Byte>, argv: array<Option<nat>>, k: nat, start: nat, ghost line: seq<Byte>)
    returns (save: nat)
    requires StillHolds(s[..], line, start) && k < argv.Length && k <= |Words(line)|
    requires Found(s[..], argv[..], Words(line), k, start, |line|) && Words(line)[k..] == WordsFrom(line, start)
    modifies s, argv
    ensures StillHolds(s[..], line, save)
    ensures
      if argv[k].None? then k == |Words(line)| && save == |line| && Found(s[..], argv[..], Words(line), k, save, |line|) else
        && k < |Words(line)| && Words(line)[k + 1..] == WordsFrom(line, save)
        && Found(s[..], argv[..], Words(line), k + 1, save, |line|)
  {
    hide WordsFrom, Words;
    ghost var words, was, had := Words(line), s[..], argv[..];
    var token: Option<nat>;
    token, save := NextToken(s, start, line);
    argv[k] := token;
    WordsStep(line, words, k, start, save);
    FoundStays(was, s[..], had, argv[..], words, k, start, save, |line|);
    if token.Some? {
      FoundMore(s[..], argv[..], words, k, save, |line|);
    }
  }

  /** Splits the line in place: argv points to its words, in order, and a null pointer
      follows. */
  method ParseCommand(s: array<Byte>, argv: array<Option<nat>>, ghost line: seq<Byte>) returns (argc: nat)
    requires StillHolds(s[..], line, 0) && |Words(line)| < argv.Length
    modifies s, argv
    ensures argc == |Words(line)| && argv[argc].None?
    ensures Found(s[..], argv[..], Words(line), argc, |line|, |line|)
  {
    ghost var words := Words(line);
    argc := 0;
    assert words[0..] == WordsFrom(line, 0);
    var save := StoreToken(s, argv, 0, 0, line);
    while argv[argc].Some?
      invariant argc <= |words| && StillHolds(s[..], line, save)
      invariant argv[argc].None? ==> argc == |words| && save == |line| && Found(s[..], argv[..], words, argc, save, |line|)
      invariant argv[argc].Some? ==>
        && argc < |words| && words[argc + 1..] == WordsFrom(line, save)
        && Found(s[..], argv[..], words, argc + 1, save, |line|)
      decreases |words| - argc, argv[argc].Some?
    {
      argc := argc + 1;
      save := StoreToken(s, argv, argc, save, line);
    }
  }
}
