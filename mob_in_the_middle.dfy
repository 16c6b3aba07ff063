/** The "mob in the middle" chat proxy (rust/protohackers/src/mob_in_the_middle.rs):
    every line relayed between a client and the chat server has its
    Boguscoin addresses replaced by one fixed address. */
module MobInTheMiddle {
  import opened Common

  /** The address every Boguscoin address is rewritten to. */
  const TONY_ADDR: seq<char> := "7YWHMfk9JZe0LM0g1ZauHuiSxhI"

  /** `u8::is_ascii_whitespace`, the separators of `split_ascii_whitespace`. */
  predicate IsAsciiWhitespace(c: char) {
    c == ' ' || c == '\t' || c == '\n' || c == '\U{C}' || c == '\r'
  }

  predicate IsAsciiAlphanumeric(c: char) {
    'a' <= c <= 'z' || 'A' <= c <= 'Z' || '0' <= c <= '9'
  }

  // ---------------------------------------------------------------------
  // `str::trim` and `str::len`.

  /** The number of whitespace characters at the front of `s`. */
  function LeadingWhitespace(s: seq<char>): (n: nat)
    ensures n <= |s|
    decreases |s|
  {
    if |s| > 0 && IsWhitespace(s[0]) then 1 + LeadingWhitespace(s[1..]) else 0
  }

  /** The number of whitespace characters at the back of `s`. */
  function TrailingWhitespace(s: seq<char>): (n: nat)
    ensures n <= |s|
    decreases |s|
  {
    if |s| > 0 && IsWhitespace(s[|s| - 1]) then 1 + TrailingWhitespace(s[..|s| - 1]) else 0
  }

  /** The leading run is all whitespace and maximal... */
  lemma {:induction false} LeadingWhitespaceSpec(s: seq<char>)
    ensures forall k :: 0 <= k < LeadingWhitespace(s) ==> IsWhitespace(s[k])
    ensures LeadingWhitespace(s) < |s| ==> !IsWhitespace(s[LeadingWhitespace(s)])
    decreases |s|
  {
    if |s| > 0 && IsWhitespace(s[0]) {
      LeadingWhitespaceSpec(s[1..]);
    }
  }

  /** ...and so is the trailing one. */
  lemma {:induction false} TrailingWhitespaceSpec(s: seq<char>)
    ensures forall k :: |s| - TrailingWhitespace(s) <= k < |s| ==> IsWhitespace(s[k])
    ensures TrailingWhitespace(s) < |s| ==> !IsWhitespace(s[|s| - TrailingWhitespace(s) - 1])
    decreases |s|
  {
    if |s| > 0 && IsWhitespace(s[|s| - 1]) {
      TrailingWhitespaceSpec(s[..|s| - 1]);
    }
  }

  /** `str::trim`: `s` without its leading and trailing whitespace. */
  function Trim(s: seq<char>): seq<char> {
    var t := s[LeadingWhitespace(s)..];
    t[..|t| - TrailingWhitespace(t)]
  }

  /** Trimming keeps a middle slice of `s` that neither starts nor ends
      with whitespace, and what it drops is all whitespace. */
  lemma TrimSpec(s: seq<char>)
    ensures var i := LeadingWhitespace(s); var j := i + |Trim(s)|;
      && j <= |s| && Trim(s) == s[i..j]
      && (forall k :: 0 <= k < i ==> IsWhitespace(s[k]))
      && (forall k :: j <= k < |s| ==> IsWhitespace(s[k]))
      && (i < j ==> !IsWhitespace(s[i]) && !IsWhitespace(s[j - 1]))
  {
    var i := LeadingWhitespace(s);
    var u := s[i..];
    var n := TrailingWhitespace(u);
    assert Trim(s) == s[i..|s| - n];
    LeadingWhitespaceSpec(s);
    TrimTail(s, i);
  }

  /** What `Trim` drops at the back of `s[i..]` is whitespace at the back of
      `s`, and the kept part ends with a non-whitespace character. */
  lemma TrimTail(s: seq<char>, i: nat)
    requires i <= |s|
    ensures var n := TrailingWhitespace(s[i..]);
      && (forall k :: |s| - n <= k < |s| ==> IsWhitespace(s[k]))
      && (i < |s| - n ==> !IsWhitespace(s[|s| - n - 1]))
  {
    var u := s[i..];
    var n := TrailingWhitespace(u);
    TrailingWhitespaceSpec(u);
    forall k | |s| - n <= k < |s| ensures IsWhitespace(s[k]) {
      assert s[k] == u[k - i];
    }
    if i < |s| - n {
      assert s[|s| - n - 1] == u[|u| - n - 1];
    }
  }

  lemma TrimNoop(s: seq<char>)
    requires |s| > 0 && !IsWhitespace(s[0]) && !IsWhitespace(s[|s| - 1])
    ensures Trim(s) == s
  {
    assert s[0..] == s;
  }

  /** The number of bytes a character takes in UTF-8. */
  function Utf8Width(c: char): nat {
    if c < '\U{80}' then 1 else if c < '\U{800}' then 2 else if c < '\U{10000}' then 3 else 4
  }

  /** `str::len`: the length of the UTF-8 encoding, in bytes. */
  function Utf8Len(s: seq<char>): nat
    decreases |s|
  {
    if |s| == 0 then 0 else Utf8Width(s[0]) + Utf8Len(s[1..])
  }

  lemma {:induction false} Utf8LenAscii(s: seq<char>)
    requires forall i :: 0 <= i < |s| ==> IsAsciiAlphanumeric(s[i])
    ensures Utf8Len(s) == |s|
    decreases |s|
  {
    if |s| > 0 {
      Utf8LenAscii(s[1..]);
    }
  }

  // ---------------------------------------------------------------------
  // Addresses.

  /** `is_boguscoin_addr`: the trimmed token starts with '7', is 26 to 35
      bytes long and consists of ASCII letters and digits. */
  function IsBoguscoinAddr(addr: seq<char>): bool {
    var t := Trim(addr);
    if !(|t| > 0 && t[0] == '7') then false
    else if Utf8Len(t) < 26 || Utf8Len(t) > 35 then false
    else forall i :: 0 <= i < |t| ==> IsAsciiAlphanumeric(t[i])
  }

  /** An address as the protocol defines it, counted in characters. */
  predicate IsAddress(t: seq<char>) {
    && 26 <= |t| <= 35 && t[0] == '7'
    && forall i :: 0 <= i < |t| ==> IsAsciiAlphanumeric(t[i])
  }

  /** The byte length the source measures agrees with the character count
      whenever it matters, so the check is exactly "the trimmed token is an
      address". */
  lemma IsBoguscoinAddrSpec(addr: seq<char>)
    ensures IsBoguscoinAddr(addr) <==> IsAddress(Trim(addr))
  {
    var t := Trim(addr);
    if forall i :: 0 <= i < |t| ==> IsAsciiAlphanumeric(t[i]) {
      Utf8LenAscii(t);
    }
  }

  /** The accepted examples of `bogus_coin_works`: 35 characters... */
  lemma BoguscoinAcceptedLong(a: seq<char>)
    requires a == "7adNeSwJkMakpEcln9HEtthSRtxdmEHOT8T"
    ensures IsBoguscoinAddr(a)
  {
    AddressAccepted(a);
  }

  /** ...and 33 characters. */
  lemma BoguscoinAcceptedShort(a: seq<char>)
    requires a == "7LOrwbDlS8NujgjddyogWgIM93MV5N2VR"
    ensures IsBoguscoinAddr(a)
  {
    AddressAccepted(a);
  }

  lemma AddressAccepted(a: seq<char>)
    requires IsAddress(a)
    ensures IsBoguscoinAddr(a)
  {
    TrimNoop(a);
    IsBoguscoinAddrSpec(a);
  }

  /** The rejected examples of `bogus_coin_works`: a wrong first
      character, and too short... */
  lemma BoguscoinRejectedShape(r1: seq<char>, r2: seq<char>)
    requires r1 == "6LOrwbDlS8NujgjddyogWgIM93MV5N2VR"
    requires r2 == "7L3MV5N2VR"
    ensures !IsBoguscoinAddr(r1) && !IsBoguscoinAddr(r2)
  {
    TrimNoop(r1);
    IsBoguscoinAddrSpec(r1);
    TrimNoop(r2);
    IsBoguscoinAddrSpec(r2);
  }

  /** ...a character that is not alphanumeric, and too long. */
  lemma BoguscoinRejectedChars(r3: seq<char>, r4: seq<char>)
    requires r3 == "7LOrwbDlS8NujgjddyogWgIM93&MV5N2VR"
    requires r4 == "7LOrwbDlS8NujgjddyogWgIM93-MV5N2VRaaaaaaaaaaaaaaaaaaaaaaaaaaaaffffff"
    ensures !IsBoguscoinAddr(r3) && !IsBoguscoinAddr(r4)
  {
    TrimNoop(r3);
    IsBoguscoinAddrSpec(r3);
    assert r3[26] == '&';
    TrimNoop(r4);
    IsBoguscoinAddrSpec(r4);
  }

  // ---------------------------------------------------------------------
  // `split_ascii_whitespace`.

  /** A token of `split_ascii_whitespace`: non-empty, no ASCII whitespace. */
  predicate IsWord(w: seq<char>) {
    |w| > 0 && forall i :: 0 <= i < |w| ==> !IsAsciiWhitespace(w[i])
  }

  /** The end of the run of non-separators that starts at `i`. */
  function WordEnd(s: seq<char>, i: nat): (e: nat)
    requires i <= |s|
    ensures i <= e <= |s|
    decreases |s| - i
  {
    if i == |s| || IsAsciiWhitespace(s[i]) then i else WordEnd(s, i + 1)
  }

  /** The run is maximal: it holds no separator and ends at one or at the end. */
  lemma {:induction false} WordEndSpec(s: seq<char>, i: nat)
    requires i <= |s|
    ensures forall k :: i <= k < WordEnd(s, i) ==> !IsAsciiWhitespace(s[k])
    ensures WordEnd(s, i) < |s| ==> IsAsciiWhitespace(s[WordEnd(s, i)])
    decreases |s| - i
  {
    if i < |s| && !IsAsciiWhitespace(s[i]) {
      WordEndSpec(s, i + 1);
    }
  }

  /** The tokens of `s`, in order. */
  function Words(s: seq<char>): seq<seq<char>>
    decreases |s|
  {
    if |s| == 0 then []
    else if IsAsciiWhitespace(s[0]) then Words(s[1..])
    else var e := WordEnd(s, 0); [s[..e]] + Words(s[e..])
  }

  /** Every token is non-empty and holds no separator. */
  lemma {:induction false} WordsAreWords(s: seq<char>)
    ensures forall k :: 0 <= k < |Words(s)| ==> IsWord(Words(s)[k])
    decreases |s|
  {
    if |s| > 0 {
      if IsAsciiWhitespace(s[0]) {
        WordsAreWords(s[1..]);
      } else {
        var e := WordEnd(s, 0);
        WordEndSpec(s, 0);
        WordsAreWords(s[e..]);
        assert Words(s) == [s[..e]] + Words(s[e..]);
      }
    }
  }

  lemma {:induction false} WordEndPrefix(a: seq<char>, b: seq<char>, i: nat)
    requires i <= |a| && (|b| == 0 || IsAsciiWhitespace(b[0]))
    ensures WordEnd(a + b, i) == WordEnd(a, i)
    decreases |a| - i
  {
    if i < |a| && !IsAsciiWhitespace(a[i]) {
      WordEndPrefix(a, b, i + 1);
    }
  }

  /** A separator splits the tokens: those before it, then those after. */
  lemma {:induction false} WordsJoin(a: seq<char>, c: char, b: seq<char>)
    requires IsAsciiWhitespace(c)
    ensures Words(a + [c] + b) == Words(a) + Words(b)
    decreases |a|
  {
    if |a| == 0 {
      assert (a + [c] + b)[1..] == b;
    } else if IsAsciiWhitespace(a[0]) {
      WordsJoin(a[1..], c, b);
      WordsJoinSeparator(a, c, b);
    } else {
      WordsJoin(a[WordEnd(a, 0)..], c, b);
      WordsJoinToken(a, c, b);
    }
  }

  /** The step of `WordsJoin` past a leading separator of `a`. */
  lemma WordsJoinSeparator(a: seq<char>, c: char, b: seq<char>)
    requires |a| > 0 && IsAsciiWhitespace(a[0])
    requires Words(a[1..] + [c] + b) == Words(a[1..]) + Words(b)
    ensures Words(a + [c] + b) == Words(a) + Words(b)
  {
    assert (a + [c] + b)[1..] == a[1..] + [c] + b;
  }

  /** The step of `WordsJoin` past a leading token of `a`. */
  lemma WordsJoinToken(a: seq<char>, c: char, b: seq<char>)
    requires IsAsciiWhitespace(c) && |a| > 0 && !IsAsciiWhitespace(a[0])
    requires Words(a[WordEnd(a, 0)..] + [c] + b) == Words(a[WordEnd(a, 0)..]) + Words(b)
    ensures Words(a + [c] + b) == Words(a) + Words(b)
  {
    var e := WordEnd(a, 0);
    WordsTokenJoined(a, c, b);
    WordsLeadingToken(a);
    var w, x, y := [a[..e]], Words(a[e..]), Words(b);
    assert Words(a + [c] + b) == w + (x + y);
    assert w + (x + y) == (w + x) + y;
  }

  /** A text starting with a token splits into that token, then the rest. */
  lemma WordsLeadingToken(a: seq<char>)
    requires |a| > 0 && !IsAsciiWhitespace(a[0])
    ensures Words(a) == [a[..WordEnd(a, 0)]] + Words(a[WordEnd(a, 0)..])
  {
  }

  /** The leading token of `a` is still the leading token once a separator
      and more text follow `a`. */
  lemma WordsTokenJoined(a: seq<char>, c: char, b: seq<char>)
    requires IsAsciiWhitespace(c) && |a| > 0 && !IsAsciiWhitespace(a[0])
    ensures Words(a + [c] + b) == [a[..WordEnd(a, 0)]] + Words(a[WordEnd(a, 0)..] + [c] + b)
  {
    var s := a + [c] + b;
    var e := WordEnd(a, 0);
    WordEndPrefix(a, [c] + b, 0);
    assert s == a + ([c] + b);
    assert s[..e] == a[..e];
    assert s[e..] == a[e..] + [c] + b;
  }

  /** A single token splits into itself. */
  lemma WordsOfWord(w: seq<char>)
    requires IsWord(w)
    ensures Words(w) == [w]
  {
    WordEndSpec(w, 0);
    assert w[..|w|] == w;
  }

  function FilterBoguscoin(ws: seq<seq<char>>): seq<seq<char>>
    decreases |ws|
  {
    if |ws| == 0 then []
    else if IsBoguscoinAddr(ws[0]) then [ws[0]] + FilterBoguscoin(ws[1..])
    else FilterBoguscoin(ws[1..])
  }

  /** The filter keeps tokens that are addresses, and only those. */
  lemma {:induction false} FilterBoguscoinSpec(ws: seq<seq<char>>)
    ensures forall k :: 0 <= k < |FilterBoguscoin(ws)| ==>
      FilterBoguscoin(ws)[k] in ws && IsBoguscoinAddr(FilterBoguscoin(ws)[k])
    ensures forall k :: 0 <= k < |ws| && IsBoguscoinAddr(ws[k]) ==> ws[k] in FilterBoguscoin(ws)
    decreases |ws|
  {
    if |ws| > 0 {
      FilterBoguscoinSpec(ws[1..]);
      assert forall k :: 1 <= k < |ws| ==> ws[k] == ws[1..][k - 1];
    }
  }

  /** The tokens of `msg` that are Boguscoin addresses, in order (`addrs`). */
  function BoguscoinWords(msg: seq<char>): seq<seq<char>> {
    FilterBoguscoin(Words(msg))
  }

  // ---------------------------------------------------------------------
  // `str::replace`.

  predicate OccursAt(s: seq<char>, pat: seq<char>, i: nat) {
    i + |pat| <= |s| && s[i..i + |pat|] == pat
  }

  /** `str::replace` for a non-empty pattern: the occurrences are replaced
      left to right, and a replaced occurrence is not searched again. */
  function Replace(s: seq<char>, pat: seq<char>, rep: seq<char>): seq<char>
    requires |pat| > 0
    decreases |s|
  {
    if |s| < |pat| then s
    else if s[..|pat|] == pat then rep + Replace(s[|pat|..], pat, rep)
    else [s[0]] + Replace(s[1..], pat, rep)
  }

  lemma OccursShift(s: seq<char>, pat: seq<char>, i: nat)
    requires |s| > 0
    ensures OccursAt(s[1..], pat, i) <==> OccursAt(s, pat, i + 1)
  {
    if i + 1 + |pat| <= |s| {
      assert s[1..][i..i + |pat|] == s[i + 1..i + 1 + |pat|];
    }
  }

  /** A string without the pattern is left alone... */
  lemma {:induction false} ReplaceAbsent(s: seq<char>, pat: seq<char>, rep: seq<char>)
    requires |pat| > 0
    requires forall i: nat :: i < |s| ==> !OccursAt(s, pat, i)
    ensures Replace(s, pat, rep) == s
    decreases |s|
  {
    if |s| >= |pat| {
      assert !OccursAt(s, pat, 0);
      forall i: nat | i < |s| - 1 ensures !OccursAt(s[1..], pat, i) {
        OccursShift(s, pat, i);
      }
      ReplaceAbsent(s[1..], pat, rep);
      assert s == [s[0]] + s[1..];
    }
  }

  lemma ReplaceSkip(s: seq<char>, pat: seq<char>, rep: seq<char>)
    requires |pat| > 0 && |s| > 0 && !OccursAt(s, pat, 0)
    ensures Replace(s, pat, rep) == [s[0]] + Replace(s[1..], pat, rep)
  {
    if |s| >= |pat| {
      assert s[..|pat|] == s[0..|pat|];
    }
  }

  lemma ReplaceHit(pat: seq<char>, rep: seq<char>, b: seq<char>)
    requires |pat| > 0
    ensures Replace(pat + b, pat, rep) == rep + Replace(b, pat, rep)
  {
    var s := pat + b;
    assert s[..|pat|] == pat && s[|pat|..] == b;
  }

  /** ...and the leftmost occurrence is replaced, the search going on after it. */
  lemma {:induction false} ReplaceFirst(a: seq<char>, pat: seq<char>, rep: seq<char>, b: seq<char>)
    requires |pat| > 0
    requires forall i: nat :: i < |a| ==> !OccursAt(a + pat + b, pat, i)
    ensures Replace(a + pat + b, pat, rep) == a + rep + Replace(b, pat, rep)
    decreases |a|
  {
    var s := a + pat + b;
    if |a| == 0 {
      ReplaceHit(pat, rep, b);
      assert s == pat + b;
    } else {
      assert !OccursAt(s, pat, 0);
      ReplaceSkip(s, pat, rep);
      assert s[1..] == a[1..] + pat + b;
      forall i: nat | i < |a| - 1 ensures !OccursAt(s[1..], pat, i) {
        OccursShift(s, pat, i);
      }
      ReplaceFirst(a[1..], pat, rep, b);
      assert a == [a[0]] + a[1..];
    }
  }

  /** A prefix that lacks the pattern's first character is copied. */
  lemma NoStartOccurs(a: seq<char>, pat: seq<char>, b: seq<char>)
    requires |pat| > 0 && forall i :: 0 <= i < |a| ==> a[i] != pat[0]
    ensures forall i: nat :: i < |a| ==> !OccursAt(a + pat + b, pat, i)
  {
    var s := a + pat + b;
    forall i: nat | i < |a| ensures !OccursAt(s, pat, i) {
      assert s[i] == a[i];
      if i + |pat| <= |s| {
        assert s[i..i + |pat|][0] == s[i];
      }
    }
  }

  // ---------------------------------------------------------------------
  // `rewrite_msg`, as written.

  predicate AllNonEmpty(addrs: seq<seq<char>>) {
    forall k :: 0 <= k < |addrs| ==> |addrs[k]| > 0
  }

  /** The message after replacing each of `addrs` in turn. */
  function ReplaceEach(msg: seq<char>, addrs: seq<seq<char>>): seq<char>
    requires AllNonEmpty(addrs)
    decreases |addrs|
  {
    if |addrs| == 0 then msg
    else Replace(ReplaceEach(msg, addrs[..|addrs| - 1]), addrs[|addrs| - 1], TONY_ADDR)
  }

  lemma BoguscoinNonEmpty(msg: seq<char>)
    ensures AllNonEmpty(BoguscoinWords(msg))
  {
    var ws := Words(msg);
    WordsAreWords(msg);
    FilterBoguscoinSpec(ws);
    forall k | 0 <= k < |BoguscoinWords(msg)| ensures |BoguscoinWords(msg)[k]| > 0 {
      assert BoguscoinWords(msg)[k] in ws;
    }
  }

  /** `rewrite_msg`: collect the address tokens, then replace each one
      everywhere in the message. */
  method RewriteMsg(msg: seq<char>) returns (ret: seq<char>)
    ensures AllNonEmpty(BoguscoinWords(msg))
    ensures ret == ReplaceEach(msg, BoguscoinWords(msg))
  {
    var addrs := BoguscoinWords(msg);
    BoguscoinNonEmpty(msg);
    ret := msg;
    for i := 0 to |addrs|
      invariant ret == ReplaceEach(msg, addrs[..i])
    {
      assert addrs[..i + 1][..i] == addrs[..i];
      ret := Replace(ret, addrs[i], TONY_ADDR);
    }
    assert addrs[..|addrs|] == addrs;
  }

  /** A message without an address token is relayed unchanged. */
  lemma RewriteMsgNoAddress(msg: seq<char>)
    requires forall k :: 0 <= k < |Words(msg)| ==> !IsBoguscoinAddr(Words(msg)[k])
    ensures AllNonEmpty(BoguscoinWords(msg)) && ReplaceEach(msg, BoguscoinWords(msg)) == msg
  {
    FilterNone(Words(msg));
  }

  lemma {:induction false} FilterNone(ws: seq<seq<char>>)
    requires forall k :: 0 <= k < |ws| ==> !IsBoguscoinAddr(ws[k])
    ensures FilterBoguscoin(ws) == []
    decreases |ws|
  {
    if |ws| > 0 {
      FilterNone(ws[1..]);
    }
  }

  lemma {:induction false} FilterAppend(a: seq<seq<char>>, b: seq<seq<char>>)
    ensures FilterBoguscoin(a + b) == FilterBoguscoin(a) + FilterBoguscoin(b)
    decreases |a|
  {
    if |a| > 0 {
      FilterAppend(a[1..], b);
      assert (a + b)[1..] == a[1..] + b;
    } else {
      assert a + b == b;
    }
  }

  /** A text without the character '7' holds no address token. */
  lemma {:induction false} NoSevenNoAddress(s: seq<char>)
    requires forall i :: 0 <= i < |s| ==> s[i] != '7'
    ensures forall k :: 0 <= k < |Words(s)| ==> !IsBoguscoinAddr(Words(s)[k])
    decreases |s|
  {
    if |s| > 0 {
      if IsAsciiWhitespace(s[0]) {
        NoSevenNoAddress(s[1..]);
      } else {
        var e := WordEnd(s, 0);
        var w := s[..e];
        TrimSpec(w);
        NoSevenNoAddress(s[e..]);
        assert Words(s) == [w] + Words(s[e..]);
      }
    }
  }

  // ---------------------------------------------------------------------
  // Rewriting whole tokens, as the protocol intends.

  /** `s` with each token replaced by its image under `f` and every
      separator kept in place. */
  function MapWords(s: seq<char>, f: seq<char> -> seq<char>): seq<char>
    decreases |s|
  {
    if |s| == 0 then []
    else if IsAsciiWhitespace(s[0]) then [s[0]] + MapWords(s[1..], f)
    else var e := WordEnd(s, 0); f(s[..e]) + MapWords(s[e..], f)
  }

  /** Separators are kept: the text on either side is mapped apart. */
  lemma {:induction false} MapWordsJoin(a: seq<char>, c: char, b: seq<char>, f: seq<char> -> seq<char>)
    requires IsAsciiWhitespace(c)
    ensures MapWords(a + [c] + b, f) == MapWords(a, f) + [c] + MapWords(b, f)
    decreases |a|
  {
    if |a| == 0 {
      assert (a + [c] + b)[1..] == b;
    } else if IsAsciiWhitespace(a[0]) {
      MapWordsJoin(a[1..], c, b, f);
      MapWordsJoinSeparator(a, c, b, f);
    } else {
      MapWordsJoin(a[WordEnd(a, 0)..], c, b, f);
      MapWordsJoinToken(a, c, b, f);
    }
  }

  /** The step of `MapWordsJoin` past a leading separator of `a`. */
  lemma MapWordsJoinSeparator(a: seq<char>, c: char, b: seq<char>, f: seq<char> -> seq<char>)
    requires |a| > 0 && IsAsciiWhitespace(a[0])
    requires MapWords(a[1..] + [c] + b, f) == MapWords(a[1..], f) + [c] + MapWords(b, f)
    ensures MapWords(a + [c] + b, f) == MapWords(a, f) + [c] + MapWords(b, f)
  {
    assert MapWords(a + [c] + b, f) == [a[0]] + MapWords(a[1..] + [c] + b, f) by {
      assert (a + [c] + b)[1..] == a[1..] + [c] + b;
    }
    ConcatAssoc([a[0]], MapWords(a[1..], f), c, MapWords(b, f));
  }

  /** The step of `MapWordsJoin` past a leading token of `a`. */
  lemma MapWordsJoinToken(a: seq<char>, c: char, b: seq<char>, f: seq<char> -> seq<char>)
    requires IsAsciiWhitespace(c) && |a| > 0 && !IsAsciiWhitespace(a[0])
    requires MapWords(a[WordEnd(a, 0)..] + [c] + b, f)
          == MapWords(a[WordEnd(a, 0)..], f) + [c] + MapWords(b, f)
    ensures MapWords(a + [c] + b, f) == MapWords(a, f) + [c] + MapWords(b, f)
  {
    var e := WordEnd(a, 0);
    MapWordsTokenJoined(a, c, b, f);
    MapWordsToken(a, f);
    ConcatAssoc(f(a[..e]), MapWords(a[e..], f), c, MapWords(b, f));
  }

  lemma ConcatAssoc(w: seq<char>, x: seq<char>, c: char, y: seq<char>)
    ensures w + (x + [c] + y) == (w + x) + [c] + y
  {
  }

  /** The leading token of `a` is still the leading token once a separator
      and more text follow `a`. */
  lemma MapWordsTokenJoined(a: seq<char>, c: char, b: seq<char>, f: seq<char> -> seq<char>)
    requires IsAsciiWhitespace(c) && |a| > 0 && !IsAsciiWhitespace(a[0])
    ensures MapWords(a + [c] + b, f) == f(a[..WordEnd(a, 0)]) + MapWords(a[WordEnd(a, 0)..] + [c] + b, f)
  {
    var s := a + [c] + b;
    var e := WordEnd(a, 0);
    WordEndPrefix(a, [c] + b, 0);
    assert s == a + ([c] + b);
    assert s[..e] == a[..e];
    assert s[e..] == a[e..] + [c] + b;
    MapWordsToken(s, f);
  }

  /** `MapWords` on a line that starts with a token. */
  lemma MapWordsToken(s: seq<char>, f: seq<char> -> seq<char>)
    requires |s| > 0 && !IsAsciiWhitespace(s[0])
    ensures MapWords(s, f) == f(s[..WordEnd(s, 0)]) + MapWords(s[WordEnd(s, 0)..], f)
  {
  }

  /** A single token is mapped as a whole. */
  lemma MapWordsOfWord(w: seq<char>, f: seq<char> -> seq<char>)
    requires IsWord(w)
    ensures MapWords(w, f) == f(w)
  {
    WordEndSpec(w, 0);
    assert w[..|w|] == w;
  }

  /** When `f` fixes every token of `s`, `s` is left as it is. */
  lemma {:induction false} MapWordsIdentity(s: seq<char>, f: seq<char> -> seq<char>)
    requires forall k :: 0 <= k < |Words(s)| ==> f(Words(s)[k]) == Words(s)[k]
    ensures MapWords(s, f) == s
    decreases |s|
  {
    if |s| > 0 {
      if IsAsciiWhitespace(s[0]) {
        assert Words(s) == Words(s[1..]);
        MapWordsIdentity(s[1..], f);
      } else {
        var e := WordEnd(s, 0);
        assert Words(s) == [s[..e]] + Words(s[e..]);
        assert Words(s)[0] == s[..e];
        assert forall k :: 0 <= k < |Words(s[e..])| ==> Words(s[e..])[k] == Words(s)[k + 1];
        MapWordsIdentity(s[e..], f);
        assert s == s[..e] + s[e..];
      }
    }
  }

  function RewriteWord(w: seq<char>): seq<char> {
    if IsBoguscoinAddr(w) then TONY_ADDR else w
  }

  /** The message with every address token replaced by `TONY_ADDR` and
      every other token and every separator kept in place. */
  function Rewrite(msg: seq<char>): seq<char> {
    MapWords(msg, RewriteWord)
  }

  /** A separator stays where it is, and the text on either side of it is
      rewritten on its own. */
  lemma RewriteJoin(a: seq<char>, c: char, b: seq<char>)
    requires IsAsciiWhitespace(c)
    ensures Rewrite(a + [c] + b) == Rewrite(a) + [c] + Rewrite(b)
  {
    MapWordsJoin(a, c, b, RewriteWord);
  }

  /** A single token becomes `TONY_ADDR` exactly when it is an address as a
      whole, and is kept otherwise. */
  lemma RewriteToken(w: seq<char>)
    requires IsWord(w)
    ensures IsBoguscoinAddr(w) ==> Rewrite(w) == TONY_ADDR
    ensures !IsBoguscoinAddr(w) ==> Rewrite(w) == w
  {
    MapWordsOfWord(w, RewriteWord);
  }

  /** A token between two separators is rewritten as a whole, and the text
      before and after it is rewritten independently of it. */
  lemma RewriteTokenBetween(a: seq<char>, c1: char, w: seq<char>, c2: char, b: seq<char>)
    requires IsAsciiWhitespace(c1) && IsAsciiWhitespace(c2) && IsWord(w)
    ensures Rewrite(a + [c1] + w + [c2] + b)
         == Rewrite(a) + [c1] + (if IsBoguscoinAddr(w) then TONY_ADDR else w) + [c2] + Rewrite(b)
  {
    var tail := w + [c2] + b;
    assert a + [c1] + w + [c2] + b == a + [c1] + tail;
    RewriteJoin(a, c1, tail);
    RewriteJoin(w, c2, b);
    RewriteToken(w);
    var ra, rw, rb := Rewrite(a), Rewrite(w), Rewrite(b);
    assert ra + [c1] + (rw + [c2] + rb) == ra + [c1] + rw + [c2] + rb;
  }

  /** A message without an address token is left as it is. */
  lemma RewriteNoAddress(msg: seq<char>)
    requires forall k :: 0 <= k < |Words(msg)| ==> !IsBoguscoinAddr(Words(msg)[k])
    ensures Rewrite(msg) == msg
  {
    MapWordsIdentity(msg, RewriteWord);
  }

  /** `rewrite_msg_works`: the one address at the end of the line is
      replaced, by the source and by the token rewrite alike. */
  lemma RewriteMsgExample(p: seq<char>, addr: seq<char>)
    requires p == "[hello] i am a coin" && addr == "7LOrwbDlS8NujgjddyogWgIM93MV5N2VR"
    ensures var msg := p + " " + addr;
      && AllNonEmpty(BoguscoinWords(msg))
      && ReplaceEach(msg, BoguscoinWords(msg)) == p + " " + TONY_ADDR
      && Rewrite(msg) == p + " " + TONY_ADDR
  {
    ExamplePrefix(p);
    ExampleAddress(addr);
    TrailingAddress(p, addr);
    assert BoguscoinWords(p + " " + addr)[0] == addr;
  }

  lemma ExamplePrefix(p: seq<char>)
    requires p == "[hello] i am a coin"
    ensures forall i :: 0 <= i < |p| ==> p[i] != '7'
  {
  }

  lemma ExampleAddress(addr: seq<char>)
    requires addr == "7LOrwbDlS8NujgjddyogWgIM93MV5N2VR"
    ensures IsAddress(addr)
  {
  }

  /** A line whose only address is its last token. */
  lemma TrailingAddress(p: seq<char>, addr: seq<char>)
    requires forall i :: 0 <= i < |p| ==> p[i] != '7'
    requires IsAddress(addr)
    ensures var msg := p + " " + addr;
      && BoguscoinWords(msg) == [addr]
      && ReplaceEach(msg, [addr]) == p + " " + TONY_ADDR
      && Rewrite(msg) == p + " " + TONY_ADDR
  {
    NoSevenNoAddress(p);
    TrailingAddressWords(p, addr);
    TrailingAddressReplace(p, addr);
    TrailingAddressRewrite(p, addr);
  }

  lemma TrailingAddressReplace(p: seq<char>, addr: seq<char>)
    requires forall i :: 0 <= i < |p| ==> p[i] != '7'
    requires IsAddress(addr)
    ensures ReplaceEach(p + [' '] + addr, [addr]) == p + [' '] + TONY_ADDR
  {
    var msg := p + [' '] + addr;
    assert [addr][..0] == [];
    NoStartOccurs(p + [' '], addr, []);
    ReplaceFirst(p + [' '], addr, TONY_ADDR, []);
    assert p + [' '] + addr + [] == msg;
  }

  lemma TrailingAddressRewrite(p: seq<char>, addr: seq<char>)
    requires forall k :: 0 <= k < |Words(p)| ==> !IsBoguscoinAddr(Words(p)[k])
    requires IsAddress(addr)
    ensures Rewrite(p + [' '] + addr) == p + [' '] + TONY_ADDR
  {
    AddressAccepted(addr);
    assert IsWord(addr);
    MapWordsJoin(p, ' ', addr, RewriteWord);
    RewriteNoAddress(p);
    MapWordsOfWord(addr, RewriteWord);
  }

  lemma TrailingAddressWords(p: seq<char>, addr: seq<char>)
    requires forall k :: 0 <= k < |Words(p)| ==> !IsBoguscoinAddr(Words(p)[k])
    requires IsAddress(addr)
    ensures BoguscoinWords(p + [' '] + addr) == [addr]
  {
    AddressAccepted(addr);
    assert IsWord(addr);
    WordsJoin(p, ' ', addr);
    WordsOfWord(addr);
    FilterNone(Words(p));
    FilterAppend(Words(p), [addr]);
  }

  /** The source replaces an address everywhere in the line, also inside a
      longer token that merely contains it; the token rewrite leaves that
      token alone. */
  lemma AsWrittenRewritesInsideWords(w: seq<char>)
    requires IsAddress(w) && w != TONY_ADDR
    ensures var msg := w + " " + w + "-";
      && AllNonEmpty(BoguscoinWords(msg))
      && ReplaceEach(msg, BoguscoinWords(msg)) == TONY_ADDR + " " + TONY_ADDR + "-"
      && Rewrite(msg) == TONY_ADDR + " " + w + "-"
      && ReplaceEach(msg, BoguscoinWords(msg)) != Rewrite(msg)
  {
    var msg := w + [' '] + (w + "-");
    assert msg == w + " " + w + "-";
    InsideWordsTokens(w);
    InsideWordsReplace(w);
    InsideWordsRewrite(w);
    LinesDiffer(w);
  }

  lemma LinesDiffer(w: seq<char>)
    requires w != TONY_ADDR
    ensures TONY_ADDR + " " + TONY_ADDR + "-" != TONY_ADDR + " " + w + "-"
  {
    var x := TONY_ADDR + " " + TONY_ADDR + "-";
    var y := TONY_ADDR + " " + w + "-";
    var n := |TONY_ADDR| + 1;
    assert x[n..|x| - 1] == TONY_ADDR;
    assert y[n..|y| - 1] == w;
  }

  /** An address followed by '-' is a token but not an address. */
  lemma DashedNotAddress(w: seq<char>)
    requires IsAddress(w)
    ensures IsWord(w + "-") && !IsBoguscoinAddr(w + "-")
  {
    var w2 := w + "-";
    TrimNoop(w2);
    IsBoguscoinAddrSpec(w2);
    assert !IsAsciiAlphanumeric(w2[|w|]);
  }

  lemma InsideWordsTokens(w: seq<char>)
    requires IsAddress(w)
    ensures BoguscoinWords(w + [' '] + (w + "-")) == [w]
  {
    var w2 := w + "-";
    AddressAccepted(w);
    DashedNotAddress(w);
    assert IsWord(w);
    WordsJoin(w, ' ', w2);
    WordsOfWord(w);
    WordsOfWord(w2);
    assert Words(w + [' '] + w2) == [w, w2];
    assert [w, w2][1..] == [w2];
    assert FilterBoguscoin([w2]) == [] by {
      assert [w2][1..] == [];
    }
  }

  lemma InsideWordsReplace(w: seq<char>)
    requires IsAddress(w)
    ensures Replace(w + [' '] + (w + "-"), w, TONY_ADDR) == TONY_ADDR + " " + TONY_ADDR + "-"
    ensures ReplaceEach(w + [' '] + (w + "-"), [w]) == TONY_ADDR + " " + TONY_ADDR + "-"
  {
    InsideWordsReplaceFirst(w);
    InsideWordsReplaceSecond(w);
    assert [w][..0] == [];
  }

  /** The first occurrence of the address is at the start of the line. */
  lemma InsideWordsReplaceFirst(w: seq<char>)
    requires IsAddress(w)
    ensures Replace(w + [' '] + (w + "-"), w, TONY_ADDR)
         == TONY_ADDR + Replace([' '] + (w + "-"), w, TONY_ADDR)
  {
    var rest := [' '] + (w + "-");
    ReplaceFirst([], w, TONY_ADDR, rest);
    assert [] + w + rest == w + [' '] + (w + "-");
    assert [] + TONY_ADDR + Replace(rest, w, TONY_ADDR) == TONY_ADDR + Replace(rest, w, TONY_ADDR);
  }

  /** The second occurrence is inside the token `w-`, after the separator. */
  lemma InsideWordsReplaceSecond(w: seq<char>)
    requires IsAddress(w)
    ensures Replace([' '] + (w + "-"), w, TONY_ADDR) == [' '] + TONY_ADDR + "-"
  {
    NoStartOccurs([' '], w, "-");
    ReplaceFirst([' '], w, TONY_ADDR, "-");
    assert [' '] + w + "-" == [' '] + (w + "-");
  }

  lemma InsideWordsRewrite(w: seq<char>)
    requires IsAddress(w)
    ensures Rewrite(w + [' '] + (w + "-")) == TONY_ADDR + " " + w + "-"
  {
    var w2 := w + "-";
    AddressAccepted(w);
    DashedNotAddress(w);
    assert IsWord(w);
    MapWordsJoin(w, ' ', w2, RewriteWord);
    MapWordsOfWord(w, RewriteWord);
    MapWordsOfWord(w2, RewriteWord);
  }
}
