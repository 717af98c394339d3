/** The first frame of a user program: its arguments laid out on one page below
    PHYS_BASE, as main expects them. */
module UserStacks {
  import opened Containers
  import opened Bytes
  import opened PageTables
  import opened Tokens

  const MAX_ARGS_COUNT: nat := 100

  /** The address of the stack page, and of byte i of it. */
  const STACK_PAGE: nat := PHYS_BASE - PGSIZE

  function Addr(i: nat): (a: nat)
    requires i <= PGSIZE
    ensures a < WORD
  {
    STACK_PAGE + i
  }

  /** The word at byte i of the page. */
  function WordAt(page: seq<Byte>, i: nat): nat
    requires i + 4 <= |page|
  {
    Word(page[i..i + 4])
  }

  // ---------------------------------------------------------------------- pushing

  /** Writes below sp, or reports that the page has no room. */
  method Push(page: array<Byte>, sp: int, data: seq<Byte>) returns (r: Option<nat>)
    requires page.Length == PGSIZE && sp <= PGSIZE
    modifies page
    ensures r.None? <==> sp < |data|
    ensures r.None? ==> page[..] == old(page[..])
    ensures r.Some? ==> r.value == sp - |data| && page[..] == Patch(old(page[..]), r.value, data)
  {
    if sp < |data| {
      return None;
    }
    CopyTo(page, sp - |data|, data);
    r := Some(sp - |data|);
  }

  /** The bytes that words k and on take, each with its null. */
  function Total(words: seq<seq<Byte>>, k: nat): nat
    decreases |words| - k
  {
    if k >= |words| then 0 else |words[k]| + 1 + Total(words, k + 1)
  }

  lemma {:induction false} TotalGrows(words: seq<seq<Byte>>, k: nat)
    ensures Total(words, k) <= Total(words, 0)
    decreases k
  {
    if k > 0 { TotalGrows(words, k - 1); }
  }

  function Padding(total: nat): nat { if total % 4 != 0 then 4 - total % 4 else 0 }

  /** All that the frame takes: strings, padding, argv with its null, and three words. */
  function FrameSize(words: seq<seq<Byte>>): nat {
    Total(words, 0) + Padding(Total(words, 0)) + 4 * |words| + 16
  }

  /** The strings take their characters and a null each, */
  lemma {:induction false} TotalIs(words: seq<seq<Byte>>, k: nat)
    requires k <= |words|
    ensures Total(words, k) == |Flat(words[k..])| + |words| - k
    decreases |words| - k
  {
    if k < |words| {
      assert words[k..][1..] == words[k + 1..];
      TotalIs(words, k + 1);
    }
  }

  /** and the frame is a whole number of words, with less than a word of padding. */
  lemma FrameIsTight(words: seq<seq<Byte>>)
    ensures
      var least := |Flat(words)| + |words| + 4 * |words| + 16;
      FrameSize(words) % 4 == 0 && least <= FrameSize(words) < least + 4
  {
    TotalIs(words, 0);
    assert words[0..] == words;
  }

  /** Words k and on stand on the page, at or above sp, where the pointers say. */
  ghost predicate Strings(page: seq<Byte>, ptrs: seq<nat>, words: seq<seq<Byte>>, k: nat, sp: int) {
    |words| <= |ptrs| && forall j {:trigger words[j]} :: k <= j < |words| ==> ptrs[j] >= sp && Stands(page, ptrs[j], words[j])
  }

  /** Writing below sp leaves the strings above it. */
  lemma StringsStay(page: seq<Byte>, a: nat, data: seq<Byte>, ptrs: seq<nat>, words: seq<seq<Byte>>, k: nat, sp: int)
    requires a + |data| <= |page| && a + |data| <= sp && Strings(page, ptrs, words, k, sp)
    ensures Strings(Patch(page, a, data), ptrs, words, k, a)
  {
    forall j | k <= j < |words| ensures ptrs[j] >= a && Stands(Patch(page, a, data), ptrs[j], words[j]) {
      var w := words[j];
      PatchMisses(page, a, data, ptrs[j], ptrs[j] + |w|);
    }
  }

  /** A word pushed with its null stands where it was pushed. */
  lemma PushedStands(page: seq<Byte>, a: nat, w: seq<Byte>)
    requires a + |w| + 1 <= |page|
    ensures Stands(Patch(page, a, w + [0]), a, w)
  {
    var n := Patch(page, a, w + [0]);
    assert n[a + |w|] == (w + [0])[|w|];
    assert n[a..a + |w|] == w by {
      forall i | 0 <= i < |w| ensures n[a + i] == w[i] { assert n[a + i] == (w + [0])[i]; }
    }
  }

  /** The C string at a word that stands is the word. */
  lemma StandsReads(s: seq<Byte>, p: nat, w: seq<Byte>)
    requires Stands(s, p, w) && NullFree(w)
    ensures CString(s[p..]) == w
  {
    assert s[p..][..|w|] == w && s[p..][|w|] == 0;
    CStringIs(s[p..], w);
  }

  lemma FoundReads(s: seq<Byte>, argv: seq<Option<nat>>, words: seq<seq<Byte>>, k: nat)
    requires Found(s, argv, words, |words|, 0, 0) && k < |words| && NullFree(words[k])
    ensures k < |argv| && argv[k].Some? && argv[k].value <= |s| && CString(s[argv[k].value..]) == words[k]
  {
    var w := words[k];
    StandsReads(s, argv[k].value, w);
  }

  lemma NoStrings(page: seq<Byte>, ptrs: seq<nat>, words: seq<seq<Byte>>)
    requires |words| <= |ptrs|
    ensures Strings(page, ptrs, words, |words|, PGSIZE)
  {
  }

  lemma OneMoreString(page: seq<Byte>, ptrs: seq<nat>, next: seq<nat>, words: seq<seq<Byte>>, k: nat, sp: nat)
    requires k < |words| <= |ptrs| && Strings(page, ptrs, words, k + 1, sp) && Stands(page, sp, words[k])
    requires next == ptrs[k := sp]
    ensures Strings(page, next, words, k, sp)
  {
    forall j | k <= j < |words| ensures next[j] >= sp && Stands(page, next[j], words[j]) {
      var w := words[j];
    }
  }

  /** Pushes the words, last first, each with its null. */
  method PushStrings(page: array<Byte>, s: seq<Byte>, argv: seq<Option<nat>>, argc: nat, ptrs: array<nat>,
                     ghost words: seq<seq<Byte>>)
    returns (sp: Option<nat>, total: nat)
    requires page.Length == PGSIZE && argc == |words| <= ptrs.Length
    requires Found(s, argv, words, argc, 0, 0) && forall k :: 0 <= k < |words| ==> NullFree(words[k])
    modifies page, ptrs
    ensures sp.Some? ==>
      && total == Total(words, 0) <= PGSIZE && sp.value == PGSIZE - total && Strings(page[..], ptrs[..], words, 0, sp.value)
    ensures sp.None? ==> Total(words, 0) > PGSIZE
  {
    hide Strings, Stands, Found, NullFree, CString;
    sp := Some(PGSIZE);
    total := 0;
    NoStrings(page[..], ptrs[..], words);
    var k: int := argc - 1;
    while k >= 0
      invariant -1 <= k < argc && sp.Some? && total == Total(words, k + 1) <= PGSIZE && sp.value == PGSIZE - total
      invariant Strings(page[..], ptrs[..], words, k + 1, sp.value)
    {
      FoundReads(s, argv, words, k);
      var arg := CString(s[argv[k].value..]);
      ghost var was, had, at := page[..], ptrs[..], sp.value;
      total := total + |arg| + 1;
      sp := Push(page, sp.value, arg + [0]);
      if sp.None? {
        TotalGrows(words, k);
        return;
      }
      StringsStay(was, sp.value, arg + [0], had, words, k + 1, at);
      PushedStands(was, sp.value, arg);
      ptrs[k] := sp.value;
      OneMoreString(page[..], had, ptrs[..], words, k, sp.value);
      k := k - 1;
    }
  }

  // ------------------------------------------------------------------ pushed words

  /** The words ws lie from sp upwards. */
  ghost predicate WordsOn(page: seq<Byte>, sp: nat, ws: seq<nat>) {
    sp + 4 * |ws| <= |page| && forall i {:trigger ws[i]} :: 0 <= i < |ws| ==> WordAt(page, sp + 4 * i) == ws[i]
  }

  lemma NoneOn(page: seq<Byte>, sp: nat)
    requires sp <= |page|
    ensures WordsOn(page, sp, [])
  {
  }

  lemma PushedOn(page: seq<Byte>, sp: nat, ws: seq<nat>, v: nat)
    requires WordsOn(page, sp, ws) && 4 <= sp && v < WORD
    ensures WordsOn(Patch(page, sp - 4, WordBytes(v)), sp - 4, [v] + ws)
  {
    var n := Patch(page, sp - 4, WordBytes(v));
    var all := [v] + ws;
    forall i | 0 <= i < |all| ensures WordAt(n, sp - 4 + 4 * i) == all[i] {
      if i == 0 {
        assert n[sp - 4..sp] == WordBytes(v);
        WordRoundTrip(v);
      } else {
        var a := sp + 4 * (i - 1);
        PatchMisses(page, sp - 4, WordBytes(v), a, a + 4);
        assert ws[i - 1] == all[i];
      }
    }
  }

  /** Pushes one word below those already there, leaving the strings. */
  method PushWord(page: array<Byte>, sp: nat, v: nat, ghost ws: seq<nat>, ghost ptrs: seq<nat>,
                  ghost words: seq<seq<Byte>>)
    returns (r: Option<nat>)
    requires page.Length == PGSIZE && sp <= PGSIZE && v < WORD
    requires WordsOn(page[..], sp, ws) && Strings(page[..], ptrs, words, 0, sp)
    modifies page
    ensures r.None? <==> sp < 4
    ensures r.Some? ==>
      && r.value == sp - 4 && WordsOn(page[..], r.value, [v] + ws) && Strings(page[..], ptrs, words, 0, r.value)
  {
    hide WordsOn, Strings;
    ghost var was := page[..];
    r := Push(page, sp, WordBytes(v));
    if r.Some? {
      PushedOn(was, sp, ws, v);
      StringsStay(was, sp - 4, WordBytes(v), ptrs, words, 0, sp);
    }
  }

  /** The addresses of the strings from k on. */
  function Pointers(ptrs: seq<nat>, k: nat, argc: nat): (r: seq<nat>)
    requires k <= argc <= |ptrs| && forall j :: 0 <= j < argc ==> ptrs[j] <= PGSIZE
    ensures |r| == argc - k
    decreases argc - k
  {
    if k == argc then [] else [Addr(ptrs[k])] + Pointers(ptrs, k + 1, argc)
  }

  lemma NoPointers(ptrs: seq<nat>, argc: nat)
    requires argc <= |ptrs| && forall j :: 0 <= j < argc ==> ptrs[j] <= PGSIZE
    ensures Pointers(ptrs, argc, argc) + [0] == [0]
  {
  }

  lemma ConsPointer(ptrs: seq<nat>, k: nat, argc: nat)
    requires k < argc <= |ptrs| && forall j :: 0 <= j < argc ==> ptrs[j] <= PGSIZE
    ensures [Addr(ptrs[k])] + (Pointers(ptrs, k + 1, argc) + [0]) == Pointers(ptrs, k, argc) + [0]
  {
  }

  lemma {:induction false} PointerAt(ptrs: seq<nat>, k: nat, argc: nat, i: nat)
    requires k <= argc <= |ptrs| && (forall j :: 0 <= j < argc ==> ptrs[j] <= PGSIZE) && i < argc - k
    ensures Pointers(ptrs, k, argc)[i] == Addr(ptrs[k + i])
    decreases argc - k
  {
    if i > 0 { PointerAt(ptrs, k + 1, argc, i - 1); }
  }

  lemma StringsFit(page: seq<Byte>, ptrs: seq<nat>, words: seq<seq<Byte>>, sp: int)
    requires Strings(page, ptrs, words, 0, sp) && |page| == PGSIZE
    ensures forall j :: 0 <= j < |words| ==> ptrs[j] <= PGSIZE
  {
    forall j | 0 <= j < |words| ensures ptrs[j] <= PGSIZE {
      assert Stands(page, ptrs[j], words[j]);
    }
  }

  /** The null that ends argv, and below it the pointers, last first. */
  method PushPointers(page: array<Byte>, top: nat, ptrs: seq<nat>, argc: nat, ghost words: seq<seq<Byte>>)
    returns (r: Option<nat>)
    requires page.Length == PGSIZE && top <= PGSIZE && argc == |words| <= |ptrs|
    requires Strings(page[..], ptrs, words, 0, top)
    modifies page
    ensures r.None? <==> top < 4 * argc + 4
    ensures r.Some? ==>
      && (forall j :: 0 <= j < argc ==> ptrs[j] <= PGSIZE) && r.value == top - 4 * argc - 4
      && WordsOn(page[..], r.value, Pointers(ptrs, 0, argc) + [0]) && Strings(page[..], ptrs, words, 0, r.value)
  {
    StringsFit(page[..], ptrs, words, top);
    hide Strings, WordsOn, Pointers;
    NoneOn(page[..], top);
    r := PushWord(page, top, 0, [], ptrs, words);
    if r.None? {
      return;
    }
    ghost var ws: seq<nat> := [0];
    var k: int := argc - 1;
    assert ws == [0] + [];
    NoPointers(ptrs, argc);
    while k >= 0
      invariant -1 <= k < argc && r.Some? && r.value == top - 4 * (argc - k - 1) - 4
      invariant ws == Pointers(ptrs, k + 1, argc) + [0]
      invariant WordsOn(page[..], r.value, ws) && Strings(page[..], ptrs, words, 0, r.value)
    {
      r := PushWord(page, r.value, Addr(ptrs[k]), ws, ptrs, words);
      if r.None? {
        return;
      }
      ConsPointer(ptrs, k, argc);
      ws := [Addr(ptrs[k])] + ws;
      k := k - 1;
    }
  }

  // ------------------------------------------------------------------ the frame

  /** The word at an address of the stack page. */
  function LoadWord(page: seq<Byte>, a: nat): Option<nat>
    requires |page| == PGSIZE
  {
    if STACK_PAGE <= a && a + 4 <= PHYS_BASE then Some(WordAt(page, a - STACK_PAGE)) else None
  }

  /** The string at an address of the stack page. */
  function LoadString(page: seq<Byte>, a: nat): Option<seq<Byte>>
    requires |page| == PGSIZE
  {
    if STACK_PAGE <= a < PHYS_BASE then Some(CString(page[a - STACK_PAGE..])) else None
  }

  /** argv[k], as the program started with this stack pointer reads it. */
  function Argument(page: seq<Byte>, esp: nat, k: nat): Option<nat>
    requires |page| == PGSIZE
  {
    var argv := LoadWord(page, esp + 8);
    if argv.Some? then LoadWord(page, argv.value + 4 * k) else None
  }

  /** What the program finds: a null return address, argc, and argv with the words in
      order and a null pointer after them. */
  ghost predicate IsFrame(page: seq<Byte>, esp: nat, words: seq<seq<Byte>>) {
    && |page| == PGSIZE && esp % 4 == 0
    && LoadWord(page, esp) == Some(0)
    && LoadWord(page, esp + 4) == Some(|words|)
    && (forall k {:trigger words[k]} :: 0 <= k < |words| ==>
          Argument(page, esp, k).Some? && LoadString(page, Argument(page, esp, k).value) == Some(words[k]))
    && Argument(page, esp, |words|) == Some(0)
  }

  lemma WordOn(page: seq<Byte>, e: nat, ws: seq<nat>, i: nat)
    requires |page| == PGSIZE && WordsOn(page, e, ws) && i < |ws|
    ensures LoadWord(page, STACK_PAGE + e + 4 * i) == Some(ws[i])
  {
  }

  /** The words of the frame, from the stack pointer up. */
  function FrameWords(e: nat, ptrs: seq<nat>, argc: nat): seq<nat>
    requires argc <= |ptrs| && (forall j :: 0 <= j < argc ==> ptrs[j] <= PGSIZE) && e + 12 <= PGSIZE
  {
    [0, argc, Addr(e + 12)] + (Pointers(ptrs, 0, argc) + [0])
  }

  lemma FrameWordsAre(e: nat, ptrs: seq<nat>, argc: nat, k: nat)
    requires argc <= |ptrs| && (forall j :: 0 <= j < argc ==> ptrs[j] <= PGSIZE) && e + 12 <= PGSIZE && k <= argc
    ensures
      var ws := FrameWords(e, ptrs, argc);
      && |ws| == argc + 4 && ws[0] == 0 && ws[1] == argc && ws[2] == Addr(e + 12)
      && ws[3 + k] == if k < argc then Addr(ptrs[k]) else 0
  {
    if k < argc {
      PointerAt(ptrs, 0, argc, k);
      assert (Pointers(ptrs, 0, argc) + [0])[k] == Pointers(ptrs, 0, argc)[k];
    } else {
      assert (Pointers(ptrs, 0, argc) + [0])[argc] == 0;
    }
  }

  lemma ArgumentIs(page: seq<Byte>, e: nat, ptrs: seq<nat>, argc: nat, k: nat)
    requires |page| == PGSIZE && argc <= |ptrs| && (forall j :: 0 <= j < argc ==> ptrs[j] <= PGSIZE)
    requires e + 12 <= PGSIZE && k <= argc && WordsOn(page, e, FrameWords(e, ptrs, argc))
    ensures LoadWord(page, Addr(e)) == Some(0) && LoadWord(page, Addr(e) + 4) == Some(argc)
    ensures Argument(page, Addr(e), k) == Some(if k < argc then Addr(ptrs[k]) else 0)
  {
    hide WordsOn, LoadWord, FrameWords;
    var ws := FrameWords(e, ptrs, argc);
    FrameWordsAre(e, ptrs, argc, k);
    WordOn(page, e, ws, 0);
    WordOn(page, e, ws, 1);
    WordOn(page, e, ws, 2);
    WordOn(page, e, ws, 3 + k);
    assert Addr(e + 12) + 4 * k == STACK_PAGE + e + 4 * (3 + k);
  }

  lemma FrameIs(page: seq<Byte>, e: nat, ptrs: seq<nat>, words: seq<seq<Byte>>)
    requires |page| == PGSIZE && e % 4 == 0 && e + 12 <= PGSIZE && |words| <= |ptrs|
    requires forall j :: 0 <= j < |words| ==> ptrs[j] <= PGSIZE && NullFree(words[j])
    requires WordsOn(page, e, FrameWords(e, ptrs, |words|)) && Strings(page, ptrs, words, 0, e)
    ensures IsFrame(page, Addr(e), words)
  {
    hide WordsOn, LoadWord, FrameWords, Argument, CString;
    forall k | 0 <= k < |words|
      ensures Argument(page, Addr(e), k).Some?
      ensures LoadString(page, Argument(page, Addr(e), k).value) == Some(words[k])
    {
      ArgumentIs(page, e, ptrs, |words|, k);
      var w := words[k];
      StandsReads(page, ptrs[k], w);
    }
    ArgumentIs(page, e, ptrs, |words|, |words|);
  }

  /** Lays the frame out. It fails just when the frame does not fit on the page. */
  method LayOut(page: array<Byte>, s: seq<Byte>, argv: seq<Option<nat>>, argc: nat, ghost words: seq<seq<Byte>>)
    returns (esp: Option<nat>)
    requires page.Length == PGSIZE && argc == |words| < MAX_ARGS_COUNT
    requires Found(s, argv, words, argc, 0, 0) && forall k :: 0 <= k < |words| ==> NullFree(words[k])
    modifies page
    ensures esp.None? <==> FrameSize(words) > PGSIZE
    ensures esp.Some? ==> esp.value == Addr(PGSIZE - FrameSize(words)) && IsFrame(page[..], esp.value, words)
  {
    hide WordsOn, Strings, Found, IsFrame, NullFree, Total;
    var ptrs := new nat[MAX_ARGS_COUNT];
    var sp, total := PushStrings(page, s, argv, argc, ptrs, words);
    if sp.None? {
      return None;
    }
    Lowered(page[..], ptrs[..], words, sp.value, sp.value - Padding(total));
    sp := PushPointers(page, sp.value - Padding(total), ptrs[..], argc, words);
    if sp.None? {
      return None;
    }
    ghost var ws := Pointers(ptrs[..], 0, argc) + [0];
    var argvAddr := Addr(sp.value);
    sp := PushWord(page, sp.value, argvAddr, ws, ptrs[..], words);
    if sp.None? {
      return None;
    }
    sp := PushWord(page, sp.value, argc, [argvAddr] + ws, ptrs[..], words);
    if sp.None? {
      return None;
    }
    sp := PushWord(page, sp.value, 0, [argc] + ([argvAddr] + ws), ptrs[..], words);
    if sp.None? {
      return None;
    }
    assert [0] + ([argc] + ([argvAddr] + ws)) == FrameWords(sp.value, ptrs[..], argc);
    FrameIs(page[..], sp.value, ptrs[..], words);
    esp := Some(Addr(sp.value));
  }

  lemma Lowered(page: seq<Byte>, ptrs: seq<nat>, words: seq<seq<Byte>>, sp: int, lower: int)
    requires Strings(page, ptrs, words, 0, sp) && lower <= sp
    ensures Strings(page, ptrs, words, 0, lower)
  {
    forall j | 0 <= j < |words| ensures ptrs[j] >= lower && Stands(page, ptrs[j], words[j]) {
      var w := words[j];
    }
  }

  /** The stack for a command line of fewer than MAX_ARGS_COUNT words: reading argc and
      argv back from the stack pointer gives exactly its words. */
  method SetupStack(page: array<Byte>, s: array<Byte>, ghost line: seq<Byte>) returns (esp: Option<nat>)
    requires page.Length == PGSIZE && page != s && StillHolds(s[..], line, 0) && |Words(line)| < MAX_ARGS_COUNT
    modifies page, s
    ensures esp.None? <==> FrameSize(Words(line)) > PGSIZE
    ensures esp.Some? ==> esp.value % 4 == 0 && IsFrame(page[..], esp.value, Words(line))
  {
    hide WordsFrom, FrameSize;
    ghost var words := Words(line);
    var argv := new Option<nat>[MAX_ARGS_COUNT](_ => None);
    var argc := ParseCommand(s, argv, line);
    forall k | 0 <= k < |words| ensures NullFree(words[k]) {
      WordsAreWords(line, 0, k);
    }
    FoundAnywhere(s[..], argv[..], words, |line|);
    esp := LayOut(page, s[..], argv[..], argc, words);
  }

  lemma FoundAnywhere(s: seq<Byte>, argv: seq<Option<nat>>, words: seq<seq<Byte>>, end: nat)
    requires Found(s, argv, words, |words|, end, end)
    ensures Found(s, argv, words, |words|, 0, 0)
  {
    forall j | 0 <= j < |words| ensures argv[j].Some? && Stands(s, argv[j].value, words[j]) {
      var w := words[j];
    }
  }
}
