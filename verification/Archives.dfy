/** Archive headers in ustar format: composing them and reading them back. */
module Archives {
  import opened Containers
  import opened Bytes
  import opened Octal

  const HEADER_SIZE: nat := 512
  const SLASH: Byte := 47
  const DOT: Byte := 46
  const REGULAR: Byte := 48
  const DIRECTORY: Byte := 53
  const INT_MAX: nat := 0x7FFF_FFFF

  /** Where the fields are, and how long. */
  const NAME_SIZE: nat := 100
  const MODE: nat := 100
  const UID: nat := 108
  const GID: nat := 116
  const SIZE: nat := 124
  const MTIME: nat := 136
  const CHKSUM: nat := 148
  const TYPEFLAG: nat := 156
  const MAGIC: nat := 257
  const VERSION: nat := 263
  const UNAME: nat := 265
  const GNAME: nat := 297
  const PREFIX: nat := 345

  const USTAR: seq<Byte> := [117, 115, 116, 97, 114, 0]
  const ROOT: seq<Byte> := [114, 111, 111, 116, 0]
  const NO_ID: seq<Byte> := [48, 48, 48, 48, 48, 48, 48, 0]

  // ------------------------------------------------------------------------ names

  predicate StartsWith(s: seq<Byte>, p: seq<Byte>) { |p| <= |s| && s[..|p|] == p }

  /** A prefix that could lead out of the directory, up to its slash; 0 when there is
      none. */
  function Antisocial(name: seq<Byte>): (n: nat)
    ensures n <= |name| && (n > 0 ==> name[n - 1] == SLASH && SLASH !in name[..n - 1])
  {
    if StartsWith(name, [SLASH]) then 1
    else if StartsWith(name, [DOT, SLASH]) then 2
    else if StartsWith(name, [DOT, DOT, SLASH]) then 3
    else 0
  }

  /** The name without such prefixes, and "." for nothing or the parent. */
  function Strip(name: seq<Byte>): seq<Byte>
    decreases |name|
  {
    if Antisocial(name) > 0 then Strip(name[Antisocial(name)..])
    else if name == [] || name == [DOT, DOT] then [DOT]
    else name
  }

  /** Stripping leaves nothing to strip. */
  lemma {:induction false} StripIsIdempotent(name: seq<Byte>)
    ensures Strip(Strip(name)) == Strip(name) && Antisocial(Strip(name)) == 0 && Strip(name) != []
    decreases |name|
  {
    if Antisocial(name) > 0 {
      StripIsIdempotent(name[Antisocial(name)..]);
    }
  }

  /** Nothing but empty, "." and ".." components, each with its slash: dots and slashes
      only, at most two dots in a row, and a slash at the end. */
  ghost predicate Idle(p: seq<Byte>) {
    && (p == [] || p[|p| - 1] == SLASH)
    && (forall i {:trigger p[i]} :: 0 <= i < |p| ==> p[i] == DOT || p[i] == SLASH)
    && forall i {:trigger p[i]} :: 0 <= i < |p| - 2 ==> p[i] == SLASH || p[i + 1] == SLASH || p[i + 2] == SLASH
  }

  lemma IdleStarts(name: seq<Byte>, j: nat)
    requires 0 < j <= |name| && Idle(name[..j])
    ensures Antisocial(name) > 0 && Antisocial(name) <= j
  {
    var p := name[..j];
    assert p[0] == name[0] && p[j - 1] == name[j - 1];
    if j > 1 { assert p[1] == name[1]; }
    if j > 2 { assert p[2] == name[2]; }
  }

  lemma IdleAfter(name: seq<Byte>, n: nat, j: nat)
    requires 0 < n == Antisocial(name) && n <= j <= |name|
    ensures Idle(name[..j]) <==> Idle(name[n..][..j - n])
  {
    var p, q := name[..j], name[n..][..j - n];
    assert forall i :: 0 <= i < |q| ==> q[i] == p[i + n];
    assert forall i :: n <= i < j ==> p[i] == q[i - n];
    assert p[n - 1] == SLASH;
    if Idle(q) {
      forall i | 0 <= i < |p| - 2 ensures p[i] == SLASH || p[i + 1] == SLASH || p[i + 2] == SLASH {
        if i >= n { assert q[i - n] == p[i]; }
      }
    }
  }

  /** Just the longest prefix of such components is dropped; what is left stays as it is,
      but for nothing or "..", which become ".". */
  lemma {:induction false} StripIsExact(name: seq<Byte>) returns (k: nat)
    ensures k <= |name| && Idle(name[..k]) && forall j :: k < j <= |name| ==> !Idle(name[..j])
    ensures Strip(name) == if name[k..] == [] || name[k..] == [DOT, DOT] then [DOT] else name[k..]
    decreases |name|
  {
    var n := Antisocial(name);
    if n == 0 {
      k := 0;
      forall j | 0 < j <= |name| ensures !Idle(name[..j]) {
        if Idle(name[..j]) { IdleStarts(name, j); }
      }
      assert name[0..] == name;
    } else {
      var l := StripIsExact(name[n..]);
      k := n + l;
      assert name[n..][l..] == name[k..];
      IdleAfter(name, n, k);
      forall j | k < j <= |name| ensures !Idle(name[..j]) {
        IdleAfter(name, n, j);
      }
    }
  }

  lemma {:induction false} StripIsNullFree(name: seq<Byte>)
    requires NullFree(name)
    ensures NullFree(Strip(name))
    decreases |name|
  {
    if Antisocial(name) > 0 {
      StripIsNullFree(name[Antisocial(name)..]);
    }
  }

  /** Past one prefix after another, each up to its slash. */
  method StripPrefixes(name: seq<Byte>) returns (r: seq<Byte>)
    ensures r == Strip(name)
  {
    r := name;
    while StartsWith(r, [SLASH]) || StartsWith(r, [DOT, SLASH]) || StartsWith(r, [DOT, DOT, SLASH])
      invariant Strip(r) == Strip(name)
      decreases |r|
    {
      var i := 0;
      while r[i] != SLASH
        invariant i < |r| && SLASH !in r[..i] && i < Antisocial(r)
        decreases |r| - i
      {
        i := i + 1;
      }
      SlashIsFirst(r, i);
      r := r[i + 1..];
    }
    if r == [] || r == [DOT, DOT] {
      r := [DOT];
    }
  }

  lemma SlashIsFirst(name: seq<Byte>, i: nat)
    requires i < |name| && name[i] == SLASH && SLASH !in name[..i] && i < Antisocial(name)
    ensures Antisocial(name) == i + 1
  {
  }

  // --------------------------------------------------------------------- checksums

  /** The sum of the bytes from i on, the checksum field taken as spaces. */
  function Sum(h: seq<Byte>, i: nat): nat
    decreases |h| - i
  {
    if i >= |h| then 0 else (if CHKSUM <= i < CHKSUM + 8 then 32 else h[i]) as int + Sum(h, i + 1)
  }

  /** Headers that differ only in the checksum field have the same checksum. */
  lemma {:induction false} SumIgnoresField(g: seq<Byte>, h: seq<Byte>, i: nat)
    requires |g| == |h| && forall k :: 0 <= k < |g| && !(CHKSUM <= k < CHKSUM + 8) ==> g[k] == h[k]
    ensures Sum(g, i) == Sum(h, i)
    decreases |h| - i
  {
    if i < |h| { SumIgnoresField(g, h, i + 1); }
  }

  lemma {:induction false} SumBound(h: seq<Byte>, i: nat)
    ensures i <= |h| ==> Sum(h, i) <= 255 * (|h| - i)
    decreases |h| - i
  {
    if i < |h| { SumBound(h, i + 1); }
  }

  /** Another byte outside the field changes the checksum by the difference. */
  lemma {:induction false} SumChanges(h: seq<Byte>, i: nat, b: Byte, k: nat)
    requires i < |h| && !(CHKSUM <= i < CHKSUM + 8)
    ensures Sum(h[i := b], k) == Sum(h, k) + if k <= i then b as int - h[i] as int else 0
    decreases |h| - k
  {
    if k < |h| { SumChanges(h, i, b, k + 1); }
  }

  method CalculateChksum(h: seq<Byte>) returns (sum: nat)
    ensures sum == Sum(h, 0)
  {
    sum := 0;
    var i := 0;
    while i < |h|
      invariant i <= |h| && sum + Sum(h, i) == Sum(h, 0)
    {
      var b: Byte := if CHKSUM <= i < CHKSUM + 8 then 32 else h[i];
      sum := sum + b;
      i := i + 1;
    }
  }

  // ------------------------------------------------------------------------ headers

  /** An octal field with the null after it. */
  function Field(v: nat, width: nat): (f: seq<Byte>)
    requires v < Pow8(width)
    ensures |f| == width + 1
  {
    DigitsFit(v, width);
    Digits(v, width) + [0]
  }

  /** The size as the formatter takes it: an unsigned word. */
  function SizeWord(size: int): nat
    requires -0x8000_0000 <= size <= INT_MAX
  {
    if size < 0 then size + 0x1_0000_0000 else size
  }

  /** The header before its checksum is filled in. */
  function Unsummed(name: seq<Byte>, kind: Byte, size: int): (h: seq<Byte>)
    requires |name| < NAME_SIZE && -0x8000_0000 <= size <= INT_MAX
    ensures |h| == HEADER_SIZE
  {
    var h0 := Blanks(HEADER_SIZE, 0);
    var h1 := Patch(h0, 0, name + [0]);
    var h2 := Patch(h1, MODE, Field(if kind == REGULAR then 420 else 493, 7));
    var h3 := Patch(h2, UID, NO_ID);
    var h4 := Patch(h3, GID, NO_ID);
    var h5 := Patch(h4, SIZE, Field(SizeWord(size), 11));
    var h6 := Patch(h5, MTIME, Field(1136102400, 11));
    var h7 := Patch(h6, TYPEFLAG, [kind]);
    var h8 := Patch(h7, MAGIC, USTAR);
    var h9 := Patch(h8, VERSION, [48, 48]);
    var h10 := Patch(h9, GNAME, ROOT);
    Patch(h10, UNAME, ROOT)
  }

  /** The header with its checksum. */
  function Header(name: seq<Byte>, kind: Byte, size: int): (h: seq<Byte>)
    requires |name| < NAME_SIZE && -0x8000_0000 <= size <= INT_MAX
    ensures |h| == HEADER_SIZE
  {
    Summed(Unsummed(name, kind, size))
  }

  /** A header with its checksum field filled in. */
  function Summed(u: seq<Byte>): (h: seq<Byte>)
    requires |u| == HEADER_SIZE
    ensures |h| == HEADER_SIZE
  {
    SumFits(u);
    Patch(u, CHKSUM, Field(Sum(u, 0), 7))
  }

  lemma SumFits(h: seq<Byte>)
    requires |h| == HEADER_SIZE
    ensures Sum(h, 0) < Pow8(7) && Sum(h, 0) <= ULONG_MAX
  {
    SumBound(h, 0);
  }

  /** The fields that the reader looks at: the name, */
  lemma NameIs(name: seq<Byte>, kind: Byte, size: int)
    requires |name| < NAME_SIZE && -0x8000_0000 <= size <= INT_MAX
    ensures
      var h := Unsummed(name, kind, size);
      h[..|name|] == name && (forall i :: |name| <= i < NAME_SIZE ==> h[i] == 0) && h[PREFIX] == 0
  {
    hide Field, SizeWord;
  }

  /** the size and the type, */
  lemma SizeIs(name: seq<Byte>, kind: Byte, size: int)
    requires |name| < NAME_SIZE && -0x8000_0000 <= size <= INT_MAX
    ensures
      var h := Unsummed(name, kind, size);
      h[SIZE..SIZE + 12] == Field(SizeWord(size), 11) && h[TYPEFLAG] == kind
  {
    hide Field, SizeWord;
  }

  /** and what marks the format. */
  lemma MarksAre(name: seq<Byte>, kind: Byte, size: int)
    requires |name| < NAME_SIZE && -0x8000_0000 <= size <= INT_MAX
    ensures
      var h := Unsummed(name, kind, size);
      h[MAGIC..MAGIC + 6] == USTAR && h[VERSION] == 48 && h[VERSION + 1] == 48
  {
    hide Field, SizeWord;
  }

  /** Copies a string with its null into a field that holds it. */
  method PutString(header: array<Byte>, at: nat, text: seq<Byte>)
    requires at + |text| <= header.Length
    modifies header
    ensures header[..] == Patch(old(header[..]), at, text)
  {
    CopyTo(header, at, text);
  }

  /** Prints a number into a field with room for its null. */
  method PutOctal(header: array<Byte>, at: nat, width: nat, v: nat)
    requires 0 < width && at + width + 1 <= header.Length && v < Pow8(width)
    modifies header
    ensures header[..] == Patch(old(header[..]), at, Field(v, width))
  {
    var text := FormatOctal(v, width);
    DigitsFit(v, width);
    Print(header, at, width + 1, text);
    assert text[..width] == text;
  }

  /** Fills in everything but the checksum. */
  method Fill(header: array<Byte>, name: seq<Byte>, kind: Byte, size: int)
    requires header.Length == HEADER_SIZE && |name| < NAME_SIZE && -0x8000_0000 <= size <= INT_MAX
    modifies header
    ensures header[..] == Unsummed(name, kind, size)
  {
    forall i | 0 <= i < HEADER_SIZE {
      header[i] := 0;
    }
    assert header[..] == Blanks(HEADER_SIZE, 0);
    PutString(header, 0, name + [0]);
    PutOctal(header, MODE, 7, if kind == REGULAR then 420 else 493);
    PutString(header, UID, NO_ID);
    PutString(header, GID, NO_ID);
    PutOctal(header, SIZE, 11, SizeWord(size));
    PutOctal(header, MTIME, 11, 1136102400);
    PutString(header, TYPEFLAG, [kind]);
    PutString(header, MAGIC, USTAR);
    PutString(header, VERSION, [48, 48]);
    PutString(header, GNAME, ROOT);
    PutString(header, UNAME, ROOT);
  }

  /** Composes a header; it fails just when the stripped name is too long. */
  method MakeHeader(name: seq<Byte>, kind: Byte, size: int, header: array<Byte>) returns (ok: bool)
    requires header.Length == HEADER_SIZE && -0x8000_0000 <= size <= INT_MAX
    requires kind == REGULAR || kind == DIRECTORY
    modifies header
    ensures ok <==> |Strip(name)| < NAME_SIZE
    ensures ok ==> header[..] == Header(Strip(name), kind, size)
    ensures !ok ==> header[..] == old(header[..])
  {
    var stripped := StripPrefixes(name);
    ok := |stripped| <= 99;
    if ok {
      hide Unsummed;
      Fill(header, stripped, kind, size);
      var sum := CalculateChksum(header[..]);
      SumFits(header[..]);
      PutOctal(header, CHKSUM, 7, sum);
    }
  }

  // ----------------------------------------------------------------------- reading

  datatype Entry = Eof | Entry(name: seq<Byte>, kind: Byte, size: nat) | Bad(why: string)

  /** What a header says. */
  function Parsed(h: seq<Byte>): Entry
    requires |h| == HEADER_SIZE
  {
    if forall i :: 0 <= i < HEADER_SIZE ==> h[i] == 0 then Eof
    else if h[MAGIC..MAGIC + 6] != USTAR then Bad("not a ustar archive")
    else if h[VERSION] != 48 || h[VERSION + 1] != 48 then Bad("invalid ustar version")
    else if FieldValue(h[CHKSUM..CHKSUM + 8]).None? then Bad("corrupt chksum field")
    else if FieldValue(h[CHKSUM..CHKSUM + 8]).value != Sum(h, 0) then Bad("checksum mismatch")
    else if h[NAME_SIZE - 1] != 0 || h[PREFIX] != 0 then Bad("file name too long")
    else if h[TYPEFLAG] != REGULAR && h[TYPEFLAG] != DIRECTORY then Bad("unimplemented file type")
    else if h[TYPEFLAG] == REGULAR then
      var size := FieldValue(h[SIZE..SIZE + 12]);
      if size.None? then Bad("corrupt file size field")
      else if size.value > INT_MAX then Bad("file too large")
      else Entry(Strip(CString(h[..NAME_SIZE])), REGULAR, size.value)
    else Entry(Strip(CString(h[..NAME_SIZE])), DIRECTORY, 0)
  }

  method ParseHeader(h: seq<Byte>) returns (e: Entry)
    requires |h| == HEADER_SIZE
    ensures e == Parsed(h)
  {
    var zeros := IsAllZeros(h);
    if zeros {
      return Eof;
    }
    var chksum := ParseOctal(h[CHKSUM..CHKSUM + 8]);
    var sum := CalculateChksum(h);
    if h[MAGIC..MAGIC + 6] != USTAR {
      return Bad("not a ustar archive");
    } else if h[VERSION] != 48 || h[VERSION + 1] != 48 {
      return Bad("invalid ustar version");
    } else if chksum.None? {
      return Bad("corrupt chksum field");
    } else if chksum.value != sum {
      return Bad("checksum mismatch");
    } else if h[NAME_SIZE - 1] != 0 || h[PREFIX] != 0 {
      return Bad("file name too long");
    } else if h[TYPEFLAG] != REGULAR && h[TYPEFLAG] != DIRECTORY {
      return Bad("unimplemented file type");
    }
    var size: nat := 0;
    if h[TYPEFLAG] == REGULAR {
      var parsed := ParseOctal(h[SIZE..SIZE + 12]);
      if parsed.None? {
        return Bad("corrupt file size field");
      } else if parsed.value > INT_MAX {
        return Bad("file too large");
      }
      size := parsed.value;
    }
    var name := StripPrefixes(CString(h[..NAME_SIZE]));
    e := Entry(name, h[TYPEFLAG], size);
  }

  method IsAllZeros(h: seq<Byte>) returns (zeros: bool)
    ensures zeros <==> forall i :: 0 <= i < |h| ==> h[i] == 0
  {
    var i := 0;
    while i < |h|
      invariant i <= |h| && forall k :: 0 <= k < i ==> h[k] == 0
    {
      if h[i] != 0 {
        return false;
      }
      i := i + 1;
    }
    zeros := true;
  }

  // -------------------------------------------------------------------- round trip

  /** The checksum filled in is the header's, and the other fields stay. */
  lemma SummedFields(u: seq<Byte>)
    requires |u| == HEADER_SIZE
    ensures
      var h := Summed(u);
      && FieldValue(h[CHKSUM..CHKSUM + 8]) == Some(Sum(h, 0))
      && h[SIZE..SIZE + 12] == u[SIZE..SIZE + 12] && h[MAGIC..MAGIC + 6] == u[MAGIC..MAGIC + 6]
      && h[VERSION] == u[VERSION] && h[VERSION + 1] == u[VERSION + 1] && h[PREFIX] == u[PREFIX]
      && h[TYPEFLAG] == u[TYPEFLAG] && h[..NAME_SIZE] == u[..NAME_SIZE]
  {
    hide Field, Sum, FieldValue;
    SumFits(u);
    var f, h := Field(Sum(u, 0), 7), Summed(u);
    SumIgnoresField(h, u, 0);
    FieldParses(Sum(u, 0), 7);
    assert h[CHKSUM..CHKSUM + 8] == f;
    PatchMisses(u, CHKSUM, f, SIZE, SIZE + 12);
    PatchMisses(u, CHKSUM, f, MAGIC, MAGIC + 6);
    PatchMisses(u, CHKSUM, f, 0, NAME_SIZE);
  }

  /** A header that was made is read back as the stripped name, the type and, for a
      file, the size; a file's size must not be negative. */
  lemma RoundTrip(name: seq<Byte>, kind: Byte, size: int)
    requires NullFree(name) && |Strip(name)| < NAME_SIZE && (kind == REGULAR || kind == DIRECTORY)
    requires -0x8000_0000 <= size <= INT_MAX
    ensures Parsed(Header(Strip(name), kind, size)) ==
      if kind == DIRECTORY then Entry(Strip(name), kind, 0)
      else if size >= 0 then Entry(Strip(name), kind, size)
      else Bad("file too large")
  {
    hide Unsummed, Field, Sum, Summed, FieldValue, Strip, CString;
    var n := Strip(name);
    var u, h := Unsummed(n, kind, size), Header(n, kind, size);
    NameIs(n, kind, size);
    SizeIs(n, kind, size);
    MarksAre(n, kind, size);
    SummedFields(u);
    FieldParses(SizeWord(size), 11);
    NameReads(u, name);
    assert h[MAGIC] == h[MAGIC..MAGIC + 6][0];
    assert h[NAME_SIZE - 1] == h[..NAME_SIZE][NAME_SIZE - 1] == u[NAME_SIZE - 1];
  }

  lemma FieldParses(v: nat, width: nat)
    requires 0 < width && v < Pow8(width) && v <= ULONG_MAX
    ensures FieldValue(Field(v, width)) == Some(v)
  {
    FieldRoundTrip(v, width);
  }

  lemma NameReads(u: seq<Byte>, name: seq<Byte>)
    requires |u| == HEADER_SIZE && NullFree(name) && |Strip(name)| < NAME_SIZE
    requires u[..|Strip(name)|] == Strip(name) && forall i :: |Strip(name)| <= i < NAME_SIZE ==> u[i] == 0
    ensures CString(u[..NAME_SIZE]) == Strip(name) && Strip(CString(u[..NAME_SIZE])) == Strip(name)
  {
    hide Strip;
    var n := Strip(name);
    StripIsNullFree(name);
    StripIsIdempotent(name);
    assert u[..NAME_SIZE][..|n|] == n && u[..NAME_SIZE][|n|] == 0;
    CStringIs(u[..NAME_SIZE], n);
  }

  // --------------------------------------------------------------- what is accepted

  /** The number in an octal field. */
  ghost predicate Says(field: seq<Byte>, v: nat) {
    v <= ULONG_MAX && exists e: nat :: EndsAt(field, e) && Value(field[..e]) == v
  }

  lemma FieldSays(field: seq<Byte>)
    ensures FieldValue(field).None? <==> forall v: nat :: !Says(field, v)
    ensures FieldValue(field).Some? ==> forall v: nat :: Says(field, v) <==> v == FieldValue(field).value
  {
    hide FieldValue;
    forall v: nat ensures FieldValue(field) == Some(v) <==> Says(field, v) {
      FieldIsExact(field, v);
    }
    if FieldValue(field).Some? {
      assert Says(field, FieldValue(field).value);
    }
  }

  function SizeField(h: seq<Byte>): seq<Byte>
    requires |h| == HEADER_SIZE
  {
    h[SIZE..SIZE + 12]
  }

  function SumField(h: seq<Byte>): seq<Byte>
    requires |h| == HEADER_SIZE
  {
    h[CHKSUM..CHKSUM + 8]
  }

  /** A header with the marks of the format, its own checksum, a name that ends within its
      field, and a type that is known. */
  ghost predicate WellFormed(h: seq<Byte>)
    requires |h| == HEADER_SIZE
  {
    && h[MAGIC..MAGIC + 6] == USTAR && h[VERSION..VERSION + 2] == [48, 48]
    && Says(SumField(h), Sum(h, 0))
    && h[NAME_SIZE - 1] == 0 && h[PREFIX] == 0
    && (h[TYPEFLAG] == REGULAR || h[TYPEFLAG] == DIRECTORY)
  }

  /** Just the well-formed headers of directories, and of files with a size that fits, are
      accepted; the size of a file is the number in its field, and a directory has none. */
  lemma ParsedIsExact(h: seq<Byte>)
    requires |h| == HEADER_SIZE
    ensures Parsed(h).Eof? <==> forall i :: 0 <= i < HEADER_SIZE ==> h[i] == 0
    ensures Parsed(h).Entry? <==>
      WellFormed(h) && (h[TYPEFLAG] == REGULAR ==> exists v: nat :: Says(SizeField(h), v) && v <= INT_MAX)
    ensures Parsed(h).Entry? ==>
      && Parsed(h).name == Strip(CString(h[..NAME_SIZE])) && Parsed(h).kind == h[TYPEFLAG]
      && if h[TYPEFLAG] == REGULAR then Says(SizeField(h), Parsed(h).size) else Parsed(h).size == 0
  {
    hide Sum, Strip, FieldValue, Says;
    assert h[VERSION..VERSION + 2] == [h[VERSION], h[VERSION + 1]];
    assert h[MAGIC] == h[MAGIC..MAGIC + 6][0];
    FieldSays(SumField(h));
    FieldSays(SizeField(h));
  }

  /** A header that was accepted is refused when any byte outside its checksum field is
      another. */
  lemma CorruptionIsFound(h: seq<Byte>, i: nat, b: Byte)
    requires |h| == HEADER_SIZE && Parsed(h).Entry? && i < HEADER_SIZE && !(CHKSUM <= i < CHKSUM + 8) && b != h[i]
    ensures Parsed(h[i := b]).Bad?
  {
    hide Sum, Strip, FieldValue;
    var g := h[i := b];
    SumChanges(h, i, b, 0);
    assert g[CHKSUM..CHKSUM + 8] == h[CHKSUM..CHKSUM + 8];
    assert h[MAGIC] == h[MAGIC..MAGIC + 6][0] == 117 && h[MAGIC + 1] == h[MAGIC..MAGIC + 6][1] == 115;
    assert g[MAGIC] != 0 || g[MAGIC + 1] != 0;
  }

  lemma {:induction false} StripShortens(name: seq<Byte>)
    ensures |Strip(name)| <= |name| || |Strip(name)| == 1
    decreases |name|
  {
    if Antisocial(name) > 0 {
      StripShortens(name[Antisocial(name)..]);
    }
  }

  /** An entry that was read can be written, and reads the same again. */
  lemma ReadThenMade(h: seq<Byte>)
    requires |h| == HEADER_SIZE && Parsed(h).Entry?
    ensures |Parsed(h).name| < NAME_SIZE && Parsed(h).size <= INT_MAX
    ensures Parsed(Header(Parsed(h).name, Parsed(h).kind, Parsed(h).size)) == Parsed(h)
  {
    hide Sum, Strip, FieldValue, Header;
    var name := CString(h[..NAME_SIZE]);
    assert h[..NAME_SIZE][NAME_SIZE - 1] == 0;
    StripIsIdempotent(name);
    StripIsNullFree(name);
    StripShortens(name);
    RoundTrip(Strip(name), Parsed(h).kind, Parsed(h).size);
  }

  /** A refusal names something that is wrong with the header. */
  lemma RefusalIsTrue(h: seq<Byte>)
    requires |h| == HEADER_SIZE && Parsed(h).Bad?
    ensures Parsed(h).why == "not a ustar archive" ==> h[MAGIC..MAGIC + 6] != USTAR
    ensures Parsed(h).why == "invalid ustar version" ==> h[VERSION..VERSION + 2] != [48, 48]
    ensures Parsed(h).why == "corrupt chksum field" ==> forall v: nat :: !Says(SumField(h), v)
    ensures Parsed(h).why == "checksum mismatch" ==> !Says(SumField(h), Sum(h, 0))
    ensures Parsed(h).why == "file name too long" ==> h[NAME_SIZE - 1] != 0 || h[PREFIX] != 0
    ensures Parsed(h).why == "unimplemented file type" ==> h[TYPEFLAG] != REGULAR && h[TYPEFLAG] != DIRECTORY
    ensures Parsed(h).why == "corrupt file size field" ==> forall v: nat :: !Says(SizeField(h), v)
    ensures Parsed(h).why == "file too large" ==> exists v: nat :: Says(SizeField(h), v) && v > INT_MAX
  {
    hide Sum, Strip, FieldValue, CString, Says;
    assert h[VERSION..VERSION + 2] == [h[VERSION], h[VERSION + 1]];
    FieldSays(SumField(h));
    FieldSays(SizeField(h));
  }

  /** The fields that the reader passes over: the mode and the time, */
  lemma ModeAndTimeAre(name: seq<Byte>, kind: Byte, size: int)
    requires |name| < NAME_SIZE && -0x8000_0000 <= size <= INT_MAX
    ensures
      var h := Unsummed(name, kind, size);
      && FieldValue(h[MODE..MODE + 8]) == Some(if kind == REGULAR then 420 else 493)
      && FieldValue(h[MTIME..MTIME + 12]) == Some(1136102400)
  {
    hide FieldValue, SizeWord, Field;
    var mode := if kind == REGULAR then 420 else 493;
    FieldParses(mode, 7);
    FieldParses(1136102400, 11);
    assert Unsummed(name, kind, size)[MODE..MODE + 8] == Field(mode, 7);
    assert Unsummed(name, kind, size)[MTIME..MTIME + 12] == Field(1136102400, 11);
  }

  /** and the owner. */
  lemma OwnerIs(name: seq<Byte>, kind: Byte, size: int)
    requires |name| < NAME_SIZE && -0x8000_0000 <= size <= INT_MAX
    ensures
      var h := Unsummed(name, kind, size);
      && h[UID..UID + 8] == NO_ID && h[GID..GID + 8] == NO_ID
      && h[UNAME..UNAME + 5] == ROOT && h[GNAME..GNAME + 5] == ROOT
  {
    hide SizeWord, Field;
  }
}
