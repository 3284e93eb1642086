/** Search paths of `ltdl.c`: canonical form, splitting into an argz vector, and joining again.  The
    path separator is ':'; there is no second directory separator (`LT_DIRSEP_CHAR` is not defined). */
module SearchPath {
  import opened Machine

  const EOS := '\0'

  /** The character at the front of `s`, or the end-of-string character. */
  function First(s: string): char { if s == "" then EOS else s[0] }

  /** A path as a C string holds it: no end-of-string character inside. */
  predicate CString(s: string) { EOS !in s }

  // ---------------------------------------------------------------- canonicalize_path

  /** `canonicalize_path` drops the front character of `s`; `started` says whether anything has been
      copied before it. */
  predicate Dropped(s: string, started: bool)
    requires s != ""
  {
    var next := First(s[1..]);
    if s[0] == ':' then !started || next == ':' || next == EOS
    else s[0] == '/' && (next == ':' || next == EOS || next == '/')
  }

  function CanonFrom(s: string, started: bool): string {
    if s == "" then ""
    else if Dropped(s, started) then CanonFrom(s[1..], started)
    else [s[0]] + CanonFrom(s[1..], true)
  }

  function Canon(path: string): string { CanonFrom(path, false) }

  /** No ':' before ':' or the end, and no '/' before '/', ':' or the end. */
  predicate Tidy(s: string) {
    s == "" ||
    (var next := First(s[1..]);
     && (s[0] == ':' ==> next != ':' && next != EOS)
     && (s[0] == '/' ==> next != '/' && next != ':' && next != EOS)
     && Tidy(s[1..]))
  }

  /** The canonical form: tidy and without a leading ':'. */
  ghost predicate Canonical(s: string) {
    Tidy(s) && First(s) != ':'
  }

  lemma {:induction false} TidyAt(s: string, i: nat)
    requires Tidy(s) && i < |s|
    ensures var next := First(s[i + 1..]);
      && (s[i] == ':' ==> next != ':' && next != EOS)
      && (s[i] == '/' ==> next != '/' && next != ':' && next != EOS)
  {
    if i > 0 {
      TidyAt(s[1..], i - 1);
      assert s[1..][i..] == s[i + 1..];
    }
  }

  /** `s` begins with an element made of '/' only (or of nothing). */
  predicate Hollow(s: string) {
    s == "" || s[0] == ':' || (s[0] == '/' && Hollow(s[1..]))
  }

  /** No separator that is copied is followed by an element made of '/' only. */
  predicate Fine(s: string, started: bool) {
    s == "" ||
    (if s[0] == ':' then (Dropped(s, started) || !Hollow(s[1..])) && Fine(s[1..], started)
     else Fine(s[1..], started || !Dropped(s, started)))
  }

  /** After something has been copied, the rest starts with a proper character unless it is hollow. */
  lemma {:induction false} CanonStarts(s: string)
    requires CString(s)
    ensures First(CanonFrom(s, true)) == EOS || First(CanonFrom(s, true)) == ':' <==> Hollow(s)
  {
    if s != "" {
      CanonStarts(s[1..]);
    }
  }

  lemma {:induction false} CanonTidyIff(s: string, started: bool)
    requires CString(s)
    ensures Tidy(CanonFrom(s, started)) <==> Fine(s, started)
    ensures !started ==> First(CanonFrom(s, started)) != ':'
  {
    if s != "" {
      var o := CanonFrom(s, started);
      CanonTidyIff(s[1..], if Dropped(s, started) then started else true);
      if !Dropped(s, started) {
        CanonStarts(s[1..]);
        assert o[1..] == CanonFrom(s[1..], true);
      }
    }
  }

  /** Somewhere in `s` a ':' is followed by a non-empty element made of '/' only, although something
      other than ':' and '/' comes before that ':' (or `started` says so). */
  ghost predicate HollowElement(s: string, started: bool) {
    exists i: nat :: HollowAt(s, i) && (started || HasProper(s[..i]))
  }

  predicate HollowAt(s: string, i: nat) {
    i + 1 < |s| && s[i] == ':' && s[i + 1] == '/' && Hollow(s[i + 1..])
  }

  predicate HasProper(s: string) {
    exists k :: 0 <= k < |s| && s[k] != ':' && s[k] != '/'
  }

  lemma HasProperCons(s: string, i: nat)
    requires 1 <= i <= |s|
    ensures HasProper(s[..i]) <==> (s[0] != ':' && s[0] != '/') || HasProper(s[1..][..i - 1])
  {
    if HasProper(s[..i]) && (s[0] == ':' || s[0] == '/') {
      var k :| 0 <= k < i && s[..i][k] != ':' && s[..i][k] != '/';
      assert s[1..][..i - 1][k - 1] == s[..i][k];
    }
    if HasProper(s[1..][..i - 1]) {
      var k :| 0 <= k < i - 1 && s[1..][..i - 1][k] != ':' && s[1..][..i - 1][k] != '/';
      assert s[..i][k + 1] != ':' && s[..i][k + 1] != '/';
    }
    if s[0] != ':' && s[0] != '/' {
      assert s[..i][0] == s[0];
    }
  }

  lemma HollowAtCons(s: string, i: nat)
    requires s != ""
    ensures HollowAt(s, i + 1) <==> HollowAt(s[1..], i)
  {
    if i + 2 < |s| {
      assert s[1..][i + 1..] == s[i + 2..];
    }
  }

  /** Looking for a hollow element one character further on. */
  lemma HollowElementCons(s: string, started: bool)
    requires s != ""
    ensures HollowElement(s, started) <==>
      (started && HollowAt(s, 0)) || HollowElement(s[1..], started || (s[0] != ':' && s[0] != '/'))
  {
    var started' := started || (s[0] != ':' && s[0] != '/');
    if HollowElement(s, started) {
      var i: nat :| HollowAt(s, i) && (started || HasProper(s[..i]));
      if i > 0 {
        HollowAtCons(s, i - 1);
        HasProperCons(s, i);
        assert HollowAt(s[1..], i - 1);
      }
    }
    if HollowElement(s[1..], started') {
      var i: nat :| HollowAt(s[1..], i) && (started' || HasProper(s[1..][..i]));
      HollowAtCons(s, i);
      HasProperCons(s, i + 1);
      assert HollowAt(s, i + 1);
    }
  }

  /** A '/' that is copied is followed by a proper character. */
  lemma {:induction false} FineIff(s: string, started: bool)
    requires CString(s)
    ensures Fine(s, started) <==> !HollowElement(s, started)
    decreases |s|
  {
    if s != "" {
      HollowElementCons(s, started);
      if s[0] == '/' && !Dropped(s, started) && !started {
        // The '/' counts as something copied; the proper character after it would have counted too.
        FineIff(s[1..], true);
        FineIff(s[1..], false);
        HollowElementCons(s[1..], false);
        HollowElementCons(s[1..], true);
      } else {
        FineIff(s[1..], started || (s[0] != ':' && s[0] != '/'));
      }
    }
  }

  /** `canonicalize_path` gives a canonical path exactly when no element made of '/' only comes after
      an element that is copied. */
  lemma CanonicalIff(path: string)
    requires CString(path)
    ensures Canonical(Canon(path)) <==> !HollowElement(path, false)
  {
    CanonTidyIff(path, false);
    FineIff(path, false);
  }

  lemma {:induction false} CanonShortens(s: string, started: bool)
    ensures |CanonFrom(s, started)| <= |s|
    ensures CString(s) ==> CString(CanonFrom(s, started))
  {
    if s != "" {
      CanonShortens(s[1..], if Dropped(s, started) then started else true);
      if CString(s) {
        assert CString(s[1..]);
      }
    }
  }

  /** Exactly the canonical paths are left alone. */
  lemma {:induction false} FixpointIff(s: string, started: bool)
    requires CString(s)
    ensures CanonFrom(s, started) == s <==> Tidy(s) && (started || First(s) != ':')
  {
    if s != "" {
      CanonShortens(s[1..], true);
      CanonShortens(s[1..], started);
      FixpointIff(s[1..], true);
      if !Dropped(s, started) {
        assert CanonFrom(s, started)[1..] == CanonFrom(s[1..], true);
      }
    }
  }

  /** Canonicalising twice is canonicalising once exactly when the first result is canonical. */
  lemma IdempotentIff(path: string)
    requires CString(path)
    ensures Canon(Canon(path)) == Canon(path) <==> !HollowElement(path, false)
  {
    CanonShortens(path, false);
    FixpointIff(Canon(path), false);
    CanonicalIff(path);
  }

  /** "a:/" is not canonicalised in one go: the result "a:" still has a trailing separator. */
  lemma HollowElementRemains()
    ensures HollowElement("a:/", false) && !Canonical(Canon("a:/"))
  {
    var s := "a:/";
    assert s[..1][0] == 'a';
    assert s[2..] == "/" && Hollow("/") by { assert "/"[1..] == ""; }
    assert HollowAt(s, 1);
    CanonicalIff(s);
  }

  // ---------------------------------------------------------------- argz vectors

  /** What `argz_create_sep` writes for the rest `s` of the string; `open` says whether the entry being
      written has any characters yet. */
  function SepFrom(s: string, delim: char, open: bool): string {
    if s == "" then [EOS]
    else if s[0] != delim then [s[0]] + SepFrom(s[1..], delim, true)
    else if open then [EOS] + SepFrom(s[1..], delim, false)
    else SepFrom(s[1..], delim, false)
  }

  /** The entries of an argz vector: each runs up to an end-of-string character. */
  function Entries(argz: string): seq<string> {
    if argz == "" then [] else
    var rest := Entries(argz[1..]);
    if argz[0] == EOS then [""] + rest
    else if rest == [] then [[argz[0]]]
    else [[argz[0]] + rest[0]] + rest[1..]
  }

  /** The elements of a string: what lies between its separators. */
  function Elements(s: string, delim: char): (r: seq<string>)
    ensures r != []
  {
    if s == "" then [""] else
    var rest := Elements(s[1..], delim);
    if s[0] == delim then [""] + rest else [[s[0]] + rest[0]] + rest[1..]
  }

  /** `s` with every `from` replaced by `to`. */
  function Replace(s: string, from: char, to: char): (r: string)
    ensures |r| == |s| && forall i :: 0 <= i < |s| ==> r[i] == if s[i] == from then to else s[i]
  {
    seq(|s|, i requires 0 <= i < |s| => if s[i] == from then to else s[i])
  }

  /** What `argz_stringify` makes of a vector: every end-of-string character is replaced, except the
      last character and the first. */
  function Stringified(argz: string, sep: char): (r: string)
    ensures |r| == |argz|
  {
    seq(|argz|, i requires 0 <= i < |argz| =>
      if 1 <= i < |argz| - 1 && argz[i] == EOS then sep else argz[i])
  }

  lemma ReplaceCons(s: string, from: char, to: char)
    requires s != ""
    ensures Replace(s, from, to) == [if s[0] == from then to else s[0]] + Replace(s[1..], from, to)
  {
  }

  /** On a canonical path nothing is folded: the separators just become terminators. */
  lemma {:induction false} SepOfTidy(s: string, open: bool)
    requires CString(s) && Tidy(s) && (open || First(s) != ':')
    ensures SepFrom(s, ':', open) == Replace(s, ':', EOS) + [EOS]
  {
    if s != "" {
      ReplaceCons(s, ':', EOS);
      SepOfTidy(s[1..], s[0] != ':');
    }
  }

  lemma {:induction false} EntriesOfReplaced(s: string, delim: char)
    requires CString(s)
    ensures Entries(Replace(s, delim, EOS) + [EOS]) == Elements(s, delim)
  {
    if s == "" {
      assert Replace(s, delim, EOS) + [EOS] == [EOS];
      assert Entries([EOS]) == [""] + Entries([EOS][1..]);
    } else {
      ReplaceCons(s, delim, EOS);
      EntriesOfReplaced(s[1..], delim);
      var a := Replace(s, delim, EOS) + [EOS];
      assert a[1..] == Replace(s[1..], delim, EOS) + [EOS];
    }
  }

  /** Splitting a canonical path gives exactly its elements, and joining them again restores it. */
  lemma SplitAndJoin(s: string)
    requires CString(s) && Canonical(s) && s != ""
    ensures Entries(SepFrom(s, ':', false)) == Elements(s, ':')
    ensures Stringified(SepFrom(s, ':', false), ':') == s + [EOS]
  {
    SepOfTidy(s, false);
    EntriesOfReplaced(s, ':');
  }

  lemma {:induction false} TidyElements(s: string, k: nat)
    requires Tidy(s) && s != "" && k < |Elements(s, ':')| && (k > 0 || s[0] != ':')
    ensures Elements(s, ':')[k] != ""
  {
    if s[0] == ':' {
      TidyElements(s[1..], k - 1);
    } else if k > 0 {
      TidyElements(s[1..], k);
    }
  }

  /** No element of a canonical path is empty. */
  lemma CanonicalElements(s: string)
    requires Canonical(s) && s != ""
    ensures forall k :: 0 <= k < |Elements(s, ':')| ==> Elements(s, ':')[k] != ""
  {
    forall k | 0 <= k < |Elements(s, ':')|
      ensures Elements(s, ':')[k] != ""
    {
      TidyElements(s, k);
    }
  }

  // ---------------------------------------------------------------- the code

  lemma Unread(s: string, i: nat)
    requires i < |s|
    ensures s[i..] != "" && s[i..][0] == s[i] && s[i..][1..] == s[i + 1..]
    ensures First(s[i + 1..]) == if i + 1 < |s| then s[i + 1] else EOS
  {
  }

  lemma Moved<T>(a: seq<T>, x: T, b: seq<T>)
    ensures a + ([x] + b) == a + [x] + b
  {
  }

  lemma CanonStep(done: string, s: string, started: bool)
    requires s != ""
    ensures done + CanonFrom(s, started)
         == if Dropped(s, started) then done + CanonFrom(s[1..], started) else done + [s[0]] + CanonFrom(s[1..], true)
  {
    Moved(done, s[0], CanonFrom(s[1..], true));
  }

  /** The loop body of `canonicalize_path`: character `src` is dropped or copied to `dest`. */
  method CanonChar(path: string, src: nat, canonical: array<char>, dest: nat) returns (dest': nat)
    requires CString(path) && dest <= src < |path| < canonical.Length
    modifies canonical
    ensures dest' == if Dropped(path[src..], dest > 0) then dest else dest + 1
    ensures canonical[..dest'] == old(canonical[..dest]) + if dest' == dest then [] else [path[src]]
  {
    var c := path[src];
    var next := if src + 1 < |path| then path[src + 1] else EOS;
    Unread(path, src);
    dest' := dest;
    if c == ':' && (dest == 0 || next == ':' || next == EOS) {
      return;
    }
    if c != '/' {
      canonical[dest'] := c;
      dest' := dest' + 1;
    } else if next != ':' && next != EOS && next != '/' {
      canonical[dest'] := '/';
      dest' := dest' + 1;
    }
  }

  method CanonicalizePath(path: string) returns (canonical: array<char>, dest: nat)
    requires CString(path) && path != ""
    ensures dest < canonical.Length && canonical[dest] == EOS && canonical[..dest] == Canon(path)
  {
    canonical := new char[1 + |path|];
    dest := 0;
    var src := 0;
    while src < |path|
      invariant dest <= src <= |path|
      invariant canonical[..dest] + CanonFrom(path[src..], dest > 0) == Canon(path)
    {
      CanonStep(canonical[..dest], path[src..], dest > 0);
      Unread(path, src);
      dest := CanonChar(path, src, canonical, dest);
      src := src + 1;
    }
    canonical[dest] := EOS;
  }

  /** What `argz_create_sep` writes for the front character of `s`. */
  function SepStep(s: string, delim: char, open: bool): string
    requires s != ""
  {
    if s[0] != delim then [s[0]] else if open then [EOS] else []
  }

  lemma SepSplits(done: string, s: string, delim: char, open: bool)
    requires s != ""
    ensures done + SepFrom(s, delim, open) == done + SepStep(s, delim, open) + SepFrom(s[1..], delim, s[0] != delim)
  {
    var rest := SepFrom(s[1..], delim, s[0] != delim);
    if s[0] == delim && !open {
      assert done + [] + rest == done + rest;
    } else {
      Moved(done, if s[0] != delim then s[0] else EOS, rest);
    }
  }

  /** The loop body of `argz_create_sep`: a delimiter ends the entry being written, if it has any
      characters yet, and other characters are copied. */
  method SepChar(str: string, p: nat, delim: char, argz: array<char>, q: nat, len: nat) returns (q': nat, len': nat)
    requires CString(str) && q <= p < |str| < argz.Length && len == 1 + q + (|str| - p)
    modifies argz
    ensures q <= q' <= q + 1 && len' == 1 + q' + (|str| - p - 1)
    ensures argz[..q'] == old(argz[..q]) + SepStep(str[p..], delim, q > 0 && old(argz[q - 1]) != EOS)
    ensures (q' > 0 && argz[q' - 1] != EOS) == (str[p] != delim)
  {
    q', len' := q, len;
    Unread(str, p);
    if str[p] == delim {
      if q > 0 && argz[q - 1] != EOS {
        argz[q] := EOS;
        q' := q + 1;
      } else {
        len' := len - 1;
      }
    } else {
      argz[q] := str[p];
      q' := q + 1;
    }
  }

  method ArgzCreateSep(str: string, delim: char) returns (argz: array<char>, argzLen: nat)
    requires CString(str)
    ensures argzLen <= argz.Length && argz[..argzLen] == SepFrom(str, delim, false)
  {
    argzLen := 1 + |str|;
    argz := new char[argzLen];
    var p, q := 0, 0;
    while p < |str|
      invariant q <= p <= |str| && argzLen == 1 + q + (|str| - p)
      invariant argz[..q] + SepFrom(str[p..], delim, q > 0 && argz[q - 1] != EOS) == SepFrom(str, delim, false)
    {
      SepSplits(argz[..q], str[p..], delim, q > 0 && argz[q - 1] != EOS);
      Unread(str, p);
      q, argzLen := SepChar(str, p, delim, argz, q, argzLen);
      p := p + 1;
    }
    argz[q] := EOS;
  }

  /** The length is counted down in an unsigned variable.  At a length of 0 or 1 it wraps, and the code leaves
      the vector before it has changed anything; `inside` says whether it stays inside. */
  method ArgzStringify(argz: array<char>, argzLen: nat, sep: char) returns (inside: bool)
    requires argzLen <= argz.Length < TWO_64 - 1
    modifies argz
    ensures inside <==> sep == EOS || argzLen >= 2
    ensures inside ==> argz[..argzLen] == Stringified(old(argz[..argzLen]), sep)
    ensures inside ==> argz[argzLen..] == old(argz[argzLen..])
    ensures !inside ==> argz[..] == old(argz[..])
  {
    inside := true;
    if sep == EOS {
      return;
    }
    var n: nat := (argzLen - 1) % TWO_64;
    n := (n - 1) % TWO_64;
    while n > 0
      invariant argzLen < 2 ==> n > 0 && n >= argz.Length && argz[..] == old(argz[..])
      invariant argzLen >= 2 ==> n <= argzLen - 2
      invariant argzLen >= 2 ==> forall i :: 0 <= i < argz.Length ==>
        argz[i] == if n < i < argzLen - 1 && old(argz[i]) == EOS then sep else old(argz[i])
    {
      if n >= argz.Length {
        return false;
      }
      if argz[n] == EOS {
        argz[n] := sep;
      }
      n := n - 1;
    }
  }

  /** The position of the entry after the one at `entry`, or of the first one. */
  method ArgzNext(argz: array<char>, argzLen: nat, entry: Option<nat>) returns (r: Option<nat>)
    requires argzLen <= argz.Length && (argzLen > 0 ==> argz[argzLen - 1] == EOS)
    requires entry.Some? ==> entry.value < argzLen
    ensures entry == None ==> r == if argzLen > 0 then Some(0) else None
    ensures entry.Some? ==>
      exists e :: entry.value <= e < argzLen && argz[e] == EOS
        && (forall i :: entry.value <= i < e ==> argz[i] != EOS)
        && r == if e + 1 < argzLen then Some(e + 1) else None
  {
    match entry
    case None =>
      r := if argzLen > 0 then Some(0) else None;
    case Some(start) =>
      var e := start;
      while argz[e] != EOS
        invariant start <= e < argzLen
        decreases argzLen - e
        invariant forall i :: start <= i < e ==> argz[i] != EOS
      {
        e := e + 1;
      }
      r := if e + 1 < argzLen then Some(e + 1) else None;
  }

  lemma {:induction false} EntriesFirst(a: string, e: nat)
    requires e < |a| && a[e] == EOS && forall i :: 0 <= i < e ==> a[i] != EOS
    ensures Entries(a) == [a[..e]] + Entries(a[e + 1..])
  {
    if e > 0 {
      EntriesFirst(a[1..], e - 1);
      assert a[1..][e..] == a[e + 1..];
      assert [a[0]] + a[1..][..e - 1] == a[..e];
    }
  }

  /** The entry at `from` ends at `end`. */
  lemma EntryAt(a: string, from: nat, end: nat)
    requires from <= end < |a| && a[end] == EOS && forall i :: from <= i < end ==> a[i] != EOS
    ensures Entries(a[from..]) == [a[from..end]] + Entries(a[end + 1..])
  {
    var b := a[from..];
    EntriesFirst(b, end - from);
    assert b[..end - from] == a[from..end] && b[end - from + 1..] == a[end + 1..];
  }

  /** The entries from position `dir` on, of which there are none past the last one. */
  function EntriesFrom(a: string, dir: Option<nat>): seq<string>
    requires dir.Some? ==> dir.value <= |a|
  {
    if dir.Some? then Entries(a[dir.value..]) else []
  }

  /** The loop body: reads the entry at `dir` and moves on. */
  method NextEntry(argz: array<char>, argzLen: nat, dir: nat) returns (entry: string, next: Option<nat>)
    requires dir < argzLen <= argz.Length && argz[argzLen - 1] == EOS
    ensures next.Some? ==> dir < next.value < argzLen
    ensures EntriesFrom(argz[..argzLen], Some(dir)) == [entry] + EntriesFrom(argz[..argzLen], next)
  {
    next := ArgzNext(argz, argzLen, Some(dir));
    var end := if next.Some? then next.value - 1 else argzLen - 1;
    var a := argz[..argzLen];
    entry := a[dir..end];
    EntryAt(a, dir, end);
    assert next == None ==> a[end + 1..] == [];
  }

  /** Walking a vector with `argz_next` visits exactly its entries, in order. */
  method EachEntry(argz: array<char>, argzLen: nat) returns (dirs: seq<string>)
    requires argzLen <= argz.Length && (argzLen > 0 ==> argz[argzLen - 1] == EOS)
    ensures dirs == Entries(argz[..argzLen])
  {
    dirs := [];
    var dir := ArgzNext(argz, argzLen, None);
    assert argz[..argzLen][0..] == argz[..argzLen];
    while dir.Some?
      invariant dir.Some? ==> dir.value < argzLen
      invariant dirs + EntriesFrom(argz[..argzLen], dir) == Entries(argz[..argzLen])
      decreases if dir.Some? then argzLen - dir.value else 0
    {
      var entry, next := NextEntry(argz, argzLen, dir.value);
      Moved(dirs, entry, EntriesFrom(argz[..argzLen], next));
      dirs := dirs + [entry];
      dir := next;
    }
  }

  lemma {:induction false} SepEnds(s: string, delim: char, open: bool)
    ensures var r := SepFrom(s, delim, open); r != "" && r[|r| - 1] == EOS
    decreases |s|
  {
    if s != "" {
      SepEnds(s[1..], delim, s[0] != delim);
    }
  }

  /** Every entry is non-empty; with `open`, the first is exempt because it continues one that is not. */
  ghost predicate NoneEmpty(entries: seq<string>, open: bool) {
    forall k :: (if open then 1 else 0) <= k < |entries| ==> entries[k] != ""
  }

  lemma NoneEmptyCons(e: string, rest: seq<string>, open: bool)
    ensures NoneEmpty([e] + rest, open) <==> (open || e != "") && NoneEmpty(rest, false)
  {
    if NoneEmpty([e] + rest, open) {
      assert open || ([e] + rest)[0] != "";
      assert forall k :: 0 <= k < |rest| ==> rest[k] == ([e] + rest)[k + 1];
    }
  }

  /** The vector has an empty entry exactly if the string is empty or ends in a delimiter. */
  lemma {:induction false} NoneEmptyIff(s: string, delim: char, open: bool)
    requires CString(s)
    ensures var entries := Entries(SepFrom(s, delim, open));
      && entries != []
      && (NoneEmpty(entries, open) <==> if s == "" then open else s[|s| - 1] != delim)
    decreases |s|
  {
    var argz := SepFrom(s, delim, open);
    if s == "" {
      assert Entries(argz) == [""] + Entries(argz[1..]);
      NoneEmptyCons("", [], open);
    } else {
      NoneEmptyIff(s[1..], delim, s[0] != delim);
      var rest := Entries(SepFrom(s[1..], delim, s[0] != delim));
      if s[0] != delim {
        assert argz[1..] == SepFrom(s[1..], delim, true);
        NoneEmptyCons([s[0]] + rest[0], rest[1..], open);
        NoneEmptyCons(rest[0], rest[1..], true);
        assert [rest[0]] + rest[1..] == rest;
      } else if open {
        assert argz[1..] == SepFrom(s[1..], delim, false);
        NoneEmptyCons("", rest, open);
      }
    }
  }

  /** At `i` there is a ':' before a '/', and only ':' and '/' follow. */
  predicate TrailAt(s: string, i: nat) {
    i + 1 < |s| && s[i] == ':' && s[i + 1] == '/' && !HasProper(s[i..])
  }

  /** The last element that is not empty is made of '/' only, and comes after a ':'. */
  ghost predicate HollowEnd(s: string) {
    exists i: nat :: TrailAt(s, i)
  }

  lemma HollowEndCons(s: string)
    requires s != ""
    ensures HollowEnd(s) <==> TrailAt(s, 0) || HollowEnd(s[1..])
  {
    if HollowEnd(s) && !TrailAt(s, 0) {
      var i: nat :| TrailAt(s, i);
      assert s[1..][i - 1..] == s[i..];
      assert TrailAt(s[1..], i - 1);
    }
    if HollowEnd(s[1..]) {
      var i: nat :| TrailAt(s[1..], i);
      assert s[1..][i..] == s[i + 1..];
      assert TrailAt(s, i + 1);
    }
  }

  lemma ProperCons(s: string)
    requires s != ""
    ensures HasProper(s) <==> (s[0] != ':' && s[0] != '/') || HasProper(s[1..])
  {
    assert s[..|s|] == s && s[1..][..|s| - 1] == s[1..];
    HasProperCons(s, |s|);
  }

  /** A path with a proper character keeps it, and ends in ':' exactly if it has a hollow end; one without
      keeps only the ':' of a hollow end, and even that only behind something copied. */
  lemma {:induction false} CanonEnds(s: string, started: bool)
    requires CString(s)
    ensures var o := CanonFrom(s, started);
      && (o != "" <==> HasProper(s) || (started && HollowEnd(s)))
      && (o != "" ==> (o[|o| - 1] == ':' <==> HollowEnd(s)))
  {
    if s != "" {
      CanonEnds(s[1..], if Dropped(s, started) then started else true);
      ProperCons(s);
      HollowEndCons(s);
      assert s[0..] == s;
      if s[1..] != "" {
        ProperCons(s[1..]);
      }
    }
  }

  /** A directory is empty exactly if the path has no proper character or has a hollow end. */
  lemma EmptyDirIff(path: string)
    requires CString(path)
    ensures NoneEmpty(Entries(SepFrom(Canon(path), ':', false)), false) <==> HasProper(path) && !HollowEnd(path)
  {
    CanonShortens(path, false);
    CanonEnds(path, false);
    NoneEmptyIff(Canon(path), ':', false);
  }

  /** ":" has no hollow element, and yet leads to one directory, which is empty. */
  lemma SeparatorAlone()
    ensures !HollowElement(":", false) && Entries(SepFrom(Canon(":"), ':', false)) == [""]
  {
    assert Entries([EOS]) == [""] + Entries([EOS][1..]);
  }

  /** The directories that `foreach_dirinpath` goes through.  On a path without hollow elements these are
      exactly the elements of its canonical form.  None is empty if and only if the path has a proper
      character and no hollow end. */
  method DirsInPath(path: string) returns (dirs: seq<string>)
    requires CString(path)
    ensures path == "" ==> dirs == []
    ensures path != "" ==> dirs == Entries(SepFrom(Canon(path), ':', false))
    ensures path != "" && !HollowElement(path, false) ==> dirs == Elements(Canon(path), ':')
    ensures path != "" ==>
      ((forall k :: 0 <= k < |dirs| ==> dirs[k] != "") <==> HasProper(path) && !HollowEnd(path))
  {
    if path == "" {
      return [];
    }
    var canonical, length := CanonicalizePath(path);
    CanonShortens(path, false);
    var argz, argzLen := ArgzCreateSep(canonical[..length], ':');
    SepEnds(Canon(path), ':', false);
    dirs := EachEntry(argz, argzLen);
    EmptyDirIff(path);
    assert NoneEmpty(dirs, false) <==> forall k :: 0 <= k < |dirs| ==> dirs[k] != "";
    if !HollowElement(path, false) {
      CanonicalIff(path);
      ElementsVisited(Canon(path));
    }
  }

  lemma ElementsVisited(s: string)
    requires CString(s) && Canonical(s)
    ensures Entries(SepFrom(s, ':', false)) == Elements(s, ':')
  {
    if s == "" {
      assert Entries([EOS]) == [""] + Entries([EOS][1..]);
    } else {
      SplitAndJoin(s);
    }
  }
}
