/** The content filter replaceBadWords: a message is split on single
    spaces, every token whose lower-case form is a banned word becomes
    "****", and the tokens are joined again and trimmed of spaces. */
module Moderation {

  /** The banned words, in lower case. */
  const BadWords: seq<string> := ["kerfuffle", "sharbert", "fornax"]

  /** What a banned token is replaced with. */
  const Mask: string := "****"

  // ---------------------------------------------------------------------
  // The string functions the filter is built from (strings.ToLower,
  // strings.Split, strings.Join and strings.Trim with a single space).
  // ---------------------------------------------------------------------

  /** ASCII lower-casing of one byte. */
  function LowerChar(c: char): char {
    if 'A' <= c <= 'Z' then (c as int + 32) as char else c
  }

  /** strings.ToLower over a message of ASCII bytes. */
  function Lower(s: string): string {
    seq(|s|, i requires 0 <= i < |s| => LowerChar(s[i]))
  }

  predicate SpaceFree(t: string) {
    ' ' !in t
  }

  predicate AllSpaceFree(ts: seq<string>) {
    forall i :: 0 <= i < |ts| ==> SpaceFree(ts[i])
  }

  /** strings.Split(s, " "): the pieces between single spaces. There is
      always at least one piece, and no piece holds a space. */
  function Split(s: string): (r: seq<string>)
    ensures |r| >= 1
    ensures AllSpaceFree(r)
    decreases |s|
  {
    if s == [] then [""]
    else
      var rest := Split(s[1..]);
      if s[0] == ' ' then [""] + rest
      else [[s[0]] + rest[0]] + rest[1..]
  }

  /** strings.Join(ts, " "). */
  function Join(ts: seq<string>): string
    decreases |ts|
  {
    if |ts| == 0 then ""
    else if |ts| == 1 then ts[0]
    else ts[0] + " " + Join(ts[1..])
  }

  /** Leading spaces removed: what is left is a suffix of s that does not
      start with a space, and everything removed was a space. */
  function TrimLeft(s: string): (r: string)
    ensures |r| <= |s| && r == s[|s| - |r|..]
    ensures r == [] || r[0] != ' '
    ensures forall i :: 0 <= i < |s| - |r| ==> s[i] == ' '
    decreases |s|
  {
    if s != [] && s[0] == ' ' then TrimLeft(s[1..]) else s
  }

  /** Trailing spaces removed: what is left is a prefix of s that does not
      end with a space, and everything removed was a space. */
  function TrimRight(s: string): (r: string)
    ensures |r| <= |s| && r == s[..|r|]
    ensures r == [] || r[|r| - 1] != ' '
    ensures forall i :: |r| <= i < |s| ==> s[i] == ' '
    decreases |s|
  {
    if s != [] && s[|s| - 1] == ' ' then TrimRight(s[..|s| - 1]) else s
  }

  predicate EdgeSpaceFree(s: string) {
    s == [] || (s[0] != ' ' && s[|s| - 1] != ' ')
  }

  /** r is the part of s starting at k, with nothing but spaces before and
      after it. */
  predicate TrimmedAt(s: string, r: string, k: int) {
    && 0 <= k <= |s| - |r|
    && r == s[k..k + |r|]
    && (forall i :: 0 <= i < k ==> s[i] == ' ')
    && (forall i :: k + |r| <= i < |s| ==> s[i] == ' ')
  }

  /** strings.Trim(s, " "): no space is left at either end, and a string
      without spaces at its ends is left as it is. */
  function Trim(s: string): (r: string)
    ensures EdgeSpaceFree(r)
    ensures EdgeSpaceFree(s) ==> r == s
  {
    TrimRight(TrimLeft(s))
  }

  /** Trimming removes nothing but spaces, and only at the ends: the result
      is a run of s with only spaces before and after it. */
  lemma TrimRemovesOnlyEdgeSpaces(s: string)
    ensures exists k :: TrimmedAt(s, Trim(s), k)
  {
    var l := TrimLeft(s);
    SpacesAround(s, l, TrimRight(l));
    assert Trim(s) == TrimRight(l);
    assert TrimmedAt(s, Trim(s), |s| - |l|);
  }

  /** A suffix of s after spaces, and a prefix of that before spaces. */
  lemma SpacesAround(s: string, l: string, r: string)
    requires |l| <= |s| && l == s[|s| - |l|..]
    requires forall i :: 0 <= i < |s| - |l| ==> s[i] == ' '
    requires |r| <= |l| && r == l[..|r|]
    requires forall i :: |r| <= i < |l| ==> l[i] == ' '
    ensures TrimmedAt(s, r, |s| - |l|)
  {
    var k := |s| - |l|;
    assert s[k..k + |r|] == l[..|r|];
    forall i | k + |r| <= i < |s| ensures s[i] == ' ' {
      assert s[i] == l[i - k];
    }
  }


  /** make([]string, n): n empty strings. */
  function Blanks(n: nat): seq<string> {
    seq(n, _ => "")
  }

  // ---------------------------------------------------------------------
  // The filter.
  // ---------------------------------------------------------------------

  /** Whether a token is a banned word in any mix of cases. */
  predicate Banned(t: string) {
    Lower(t) in BadWords
  }

  /** One token after filtering. */
  function MaskToken(t: string): string {
    if Banned(t) then Mask else t
  }

  /** The tokens after filtering: same number, same order; a token is
      replaced by the mask exactly when its lower-case form is banned. */
  function MaskTokens(ts: seq<string>): (r: seq<string>)
    ensures |r| == |ts|
    ensures forall i :: 0 <= i < |ts| && Banned(ts[i]) ==> r[i] == Mask
    ensures forall i :: 0 <= i < |ts| && !Banned(ts[i]) ==> r[i] == ts[i]
  {
    if ts == [] then [] else [MaskToken(ts[0])] + MaskTokens(ts[1..])
  }

  /** What the filter computes, without the empty placeholders that the
      source's make call puts in front of the tokens. */
  function Moderate(msg: string): (r: string)
    ensures EdgeSpaceFree(r)
  {
    Trim(Join(MaskTokens(Split(msg))))
  }

  /** replaceBadWords as the source writes it: the result slice starts
      with one empty string per token, the filtered tokens are appended
      after them, and the joined result is trimmed. */
  method ReplaceBadWords(msg: string) returns (r: string)
    ensures r == Moderate(msg)
  {
    var msgSlice := Split(msg);
    var lowerSlice := Split(Lower(msg));
    SplitLowerAligned(msg);
    var n := |msgSlice|;
    var returnSlice := Blanks(n);
    var idx := 0;
    while idx < |lowerSlice|
      invariant 0 <= idx <= |lowerSlice| == n
      invariant returnSlice == Blanks(n) + MaskTokens(msgSlice[..idx])
    {
      MaskStep(msgSlice, lowerSlice, idx);
      if lowerSlice[idx] !in BadWords {
        returnSlice := returnSlice + [msgSlice[idx]];
      } else {
        returnSlice := returnSlice + [Mask];
      }
      idx := idx + 1;
    }
    assert msgSlice[..idx] == msgSlice;
    r := Trim(Join(returnSlice));
    PaddingTrimmed(n, MaskTokens(msgSlice));
  }

  /** One iteration of the loop: testing the lower-case piece decides the
      filtered form of the original piece at the same position. */
  lemma MaskStep(ts: seq<string>, lows: seq<string>, idx: int)
    requires 0 <= idx < |ts| == |lows|
    requires forall i :: 0 <= i < |ts| ==> lows[i] == Lower(ts[i])
    ensures MaskTokens(ts[..idx + 1])
         == MaskTokens(ts[..idx]) + [if lows[idx] !in BadWords then ts[idx] else Mask]
  {
    MaskTokensSnoc(ts[..idx], ts[idx]);
    assert ts[..idx + 1] == ts[..idx] + [ts[idx]];
  }

  /** Filtering one more token appends its filtered form. */
  lemma MaskTokensSnoc(ts: seq<string>, t: string)
    ensures MaskTokens(ts + [t]) == MaskTokens(ts) + [MaskToken(t)]
  {
    var l := MaskTokens(ts + [t]);
    var m := MaskTokens(ts) + [MaskToken(t)];
    forall i | 0 <= i < |l| ensures l[i] == m[i] {
      assert (ts + [t])[i] == if i < |ts| then ts[i] else t;
    }
  }

  // ---------------------------------------------------------------------
  // Splitting and joining.
  // ---------------------------------------------------------------------

  /** Lower-casing a message and then splitting it gives, piece by piece,
      the lower-cased pieces of the message: the source may index the
      original pieces by the positions of the lower-case ones. */
  lemma {:induction false} SplitLowerAligned(s: string)
    ensures |Split(Lower(s))| == |Split(s)|
    ensures forall i :: 0 <= i < |Split(s)| ==> Split(Lower(s))[i] == Lower(Split(s)[i])
    decreases |s|
  {
    if s == [] {
      assert Lower(s) == [];
    } else {
      SplitLowerAligned(s[1..]);
      var ls := Lower(s);
      LowerTail(s);
      SplitUnfold(s);
      SplitUnfold(ls);
      var rest := Split(s[1..]);
      if s[0] == ' ' {
        assert Lower("") == "";
        assert Split(ls) == [""] + Split(Lower(s[1..]));
        assert Split(s) == [""] + rest;
      } else {
        LowerCons(s[0], rest[0]);
        assert Split(ls) == [[LowerChar(s[0])] + Split(Lower(s[1..]))[0]] + Split(Lower(s[1..]))[1..];
        assert Split(s) == [[s[0]] + rest[0]] + rest[1..];
      }
    }
  }

  /** Lower-casing a non-empty string lower-cases its first byte and its
      tail separately. */
  lemma LowerTail(s: string)
    requires s != []
    ensures Lower(s) != [] && Lower(s)[0] == LowerChar(s[0]) && Lower(s)[1..] == Lower(s[1..])
    ensures (Lower(s)[0] == ' ') == (s[0] == ' ')
  {
  }

  lemma LowerCons(c: char, t: string)
    ensures Lower([c] + t) == [LowerChar(c)] + Lower(t)
  {
  }

  /** One step of Split on a non-empty string. */
  lemma SplitUnfold(s: string)
    requires s != []
    ensures s[0] == ' ' ==> Split(s) == [""] + Split(s[1..])
    ensures s[0] != ' ' ==> Split(s) == [[s[0]] + Split(s[1..])[0]] + Split(s[1..])[1..]
  {
  }

  /** A space-free prefix joins the first piece. */
  lemma {:induction false} SplitPrefix(t: string, s: string)
    requires SpaceFree(t)
    ensures Split(t + s) == [t + Split(s)[0]] + Split(s)[1..]
    decreases |t|
  {
    if t == [] {
      assert t + s == s && t + Split(s)[0] == Split(s)[0];
    } else {
      SplitPrefix(t[1..], s);
      assert (t + s)[0] == t[0] && t[0] in t;
      assert (t + s)[1..] == t[1..] + s;
      assert [t[0]] + (t[1..] + Split(s)[0]) == t + Split(s)[0];
    }
  }

  /** Joining the pieces gives the message back. */
  lemma {:induction false} JoinSplit(s: string)
    ensures Join(Split(s)) == s
    decreases |s|
  {
    if s != [] {
      JoinSplit(s[1..]);
      var rest := Split(s[1..]);
      if s[0] == ' ' {
        assert [""] + rest == Split(s);
        assert ([""] + rest)[1..] == rest;
      } else if |rest| > 1 {
        assert rest[1..][1..] == rest[2..];
        assert Join(rest) == rest[0] + " " + Join(rest[1..]);
      }
    }
  }

  /** Splitting a join of space-free tokens gives the tokens back. */
  lemma {:induction false} SplitJoin(ts: seq<string>)
    requires |ts| >= 1 && AllSpaceFree(ts)
    ensures Split(Join(ts)) == ts
    decreases |ts|
  {
    SplitPrefix(ts[0], "");
    assert ts[0] + "" == ts[0];
    if |ts| > 1 {
      SplitJoin(ts[1..]);
      assert ts[0] + " " + Join(ts[1..]) == ts[0] + (" " + Join(ts[1..]));
      SplitPrefix(ts[0], " " + Join(ts[1..]));
      assert (" " + Join(ts[1..]))[1..] == Join(ts[1..]);
      assert ts == [ts[0]] + ts[1..];
    }
  }

  /** Appending one token adds a space and the token. */
  lemma {:induction false} JoinSnoc(ts: seq<string>, t: string)
    requires |ts| >= 1
    ensures Join(ts + [t]) == Join(ts) + " " + t
    decreases |ts|
  {
    if |ts| > 1 {
      JoinSnoc(ts[1..], t);
      assert (ts + [t])[1..] == ts[1..] + [t];
    }
  }

  // ---------------------------------------------------------------------
  // Trimming.
  // ---------------------------------------------------------------------

  /** Joining a token in front adds the token and a space. */
  lemma JoinCons(t: string, ts: seq<string>)
    requires |ts| > 0
    ensures Join([t] + ts) == t + " " + Join(ts)
  {
    assert ([t] + ts)[1..] == ts;
  }

  /** An empty token in front adds one leading space. */
  lemma JoinEmptyCons(ts: seq<string>)
    requires |ts| > 0
    ensures Join([""] + ts) == " " + Join(ts)
  {
    assert ([""] + ts)[1..] == ts;
  }

  lemma BlanksCons(n: nat, ts: seq<string>)
    requires n > 0
    ensures Blanks(n) + ts == [""] + (Blanks(n - 1) + ts)
  {
  }

  /** A space in front of a string is trimmed away. */
  lemma TrimLeftSpace(s: string)
    ensures TrimLeft(" " + s) == TrimLeft(s)
  {
    assert (" " + s)[1..] == s;
  }

  lemma TrimLeadingSpace(s: string)
    ensures Trim(" " + s) == Trim(s)
  {
    TrimLeftSpace(s);
  }

  /** The empty placeholders in front of the tokens only add leading
      spaces, which the trim removes: they do not change the result. */
  lemma {:induction false} PaddingTrimmed(n: nat, ts: seq<string>)
    ensures Trim(Join(Blanks(n) + ts)) == Trim(Join(ts))
    decreases n
  {
    if n == 0 {
      assert Blanks(n) + ts == ts;
    } else if n == 1 && ts == [] {
      assert Blanks(n) + ts == [""];
    } else {
      PaddingTrimmed(n - 1, ts);
      var tail := Blanks(n - 1) + ts;
      assert |tail| > 0;
      BlanksCons(n, ts);
      JoinEmptyCons(tail);
      TrimLeadingSpace(Join(tail));
    }
  }

  /** Empty tokens at the front removed: a suffix of ts that does not start
      with an empty token, and only empty tokens were removed. */
  function DropLeadingEmpty(ts: seq<string>): (r: seq<string>)
    ensures |r| <= |ts| && r == ts[|ts| - |r|..]
    ensures r == [] || r[0] != ""
    ensures forall i :: 0 <= i < |ts| - |r| ==> ts[i] == ""
    decreases |ts|
  {
    if ts != [] && ts[0] == "" then DropLeadingEmpty(ts[1..]) else ts
  }

  /** Empty tokens at the back removed: a prefix of ts that does not end
      with an empty token, and only empty tokens were removed. */
  function DropTrailingEmpty(ts: seq<string>): (r: seq<string>)
    ensures |r| <= |ts| && r == ts[..|r|]
    ensures r == [] || r[|r| - 1] != ""
    ensures forall i :: |r| <= i < |ts| ==> ts[i] == ""
    decreases |ts|
  {
    if ts != [] && ts[|ts| - 1] == "" then DropTrailingEmpty(ts[..|ts| - 1]) else ts
  }

  /** Empty tokens removed at both ends: an infix of ts that neither
      starts nor ends with an empty token. */
  function DropEdgeEmpty(ts: seq<string>): (r: seq<string>)
    ensures var l := DropLeadingEmpty(ts);
            |r| <= |l| && forall j :: 0 <= j < |r| ==> r[j] == ts[|ts| - |l| + j]
    ensures r == [] || (r[0] != "" && r[|r| - 1] != "")
  {
    var l := DropLeadingEmpty(ts);
    var r := DropTrailingEmpty(l);
    assert r != [] ==> r[0] == l[0];
    r
  }

  /** Every token removed by DropEdgeEmpty is empty. */
  lemma DropEdgeEmptyDropsOnlyEmpty(ts: seq<string>)
    ensures var k := |ts| - |DropLeadingEmpty(ts)|;
            var r := DropEdgeEmpty(ts);
            (forall i :: 0 <= i < k ==> ts[i] == "")
            && (forall i :: k + |r| <= i < |ts| ==> ts[i] == "")
  {
    var l := DropLeadingEmpty(ts);
    var k := |ts| - |l|;
    var r := DropEdgeEmpty(ts);
    forall i | k + |r| <= i < |ts| ensures ts[i] == "" {
      assert ts[i] == l[i - k];
    }
  }

  /** A join that starts with a non-empty token starts with that token's
      first byte. */
  lemma JoinHead(ts: seq<string>)
    requires |ts| > 0 && ts[0] != ""
    ensures Join(ts) != [] && Join(ts)[0] == ts[0][0]
  {
    if |ts| > 1 {
      JoinCons(ts[0], ts[1..]);
      assert ts == [ts[0]] + ts[1..];
    }
  }

  /** Trimming the front of joined space-free tokens drops the empty
      tokens at the front. */
  lemma {:induction false} TrimLeftJoin(ts: seq<string>)
    requires AllSpaceFree(ts)
    ensures TrimLeft(Join(ts)) == Join(DropLeadingEmpty(ts))
    decreases |ts|
  {
    if |ts| == 0 {
    } else if ts[0] == "" && |ts| == 1 {
      assert DropLeadingEmpty(ts) == DropLeadingEmpty([]);
    } else if ts[0] == "" {
      TrimLeftJoin(ts[1..]);
      TrimLeftEmptyHead(ts);
    } else {
      assert SpaceFree(ts[0]);
      JoinHead(ts);
    }
  }

  /** One step of the above: an empty first token is one leading space. */
  lemma TrimLeftEmptyHead(ts: seq<string>)
    requires |ts| > 1 && ts[0] == ""
    ensures TrimLeft(Join(ts)) == TrimLeft(Join(ts[1..]))
    ensures DropLeadingEmpty(ts) == DropLeadingEmpty(ts[1..])
  {
    assert ts == [""] + ts[1..];
    JoinEmptyCons(ts[1..]);
    TrimLeftSpace(Join(ts[1..]));
  }

  /** Trimming the back of joined space-free tokens drops the empty tokens
      at the back. */
  lemma {:induction false} TrimRightJoin(ts: seq<string>)
    requires AllSpaceFree(ts)
    ensures TrimRight(Join(ts)) == Join(DropTrailingEmpty(ts))
    decreases |ts|
  {
    if |ts| > 1 {
      var init, last := ts[..|ts| - 1], ts[|ts| - 1];
      assert ts == init + [last];
      JoinSnoc(init, last);
      if last == "" {
        TrimRightJoin(init);
        assert Join(ts) == Join(init) + " ";
        assert (Join(init) + " ")[..|Join(init)|] == Join(init);
      } else {
        assert last[|last| - 1] != ' ';
        assert Join(ts)[|Join(ts)| - 1] == last[|last| - 1];
      }
    } else if |ts| == 1 && ts[0] != "" {
      assert ts[0][|ts[0]| - 1] != ' ';
    }
  }

  /** Trimming joined space-free tokens is joining them without the empty
      tokens at either end. */
  lemma TrimJoin(ts: seq<string>)
    requires AllSpaceFree(ts)
    ensures Trim(Join(ts)) == Join(DropEdgeEmpty(ts))
  {
    TrimLeftJoin(ts);
    TrimRightJoin(DropLeadingEmpty(ts));
  }

  // ---------------------------------------------------------------------
  // What the filter promises.
  // ---------------------------------------------------------------------

  /** The mask itself is not banned, so filtering a token twice is
      filtering it once. */
  lemma MaskTokenIdempotent(t: string)
    ensures MaskToken(MaskToken(t)) == MaskToken(t)
  {
    assert Lower(Mask) == Mask;
  }

  /** The mask is not a banned word. */
  lemma MaskNotBanned()
    ensures !Banned(Mask)
  {
    assert Lower(Mask) == Mask;
  }

  /** A token of a length no banned word has is not banned. */
  lemma NotBannedByLength(t: string)
    requires |t| != 9 && |t| != 8 && |t| != 6
    ensures !Banned(t)
  {
    assert |Lower(t)| == |t|;
  }

  /** A token the filter leaves alone is not banned. */
  lemma FixedNotBanned(t: string)
    requires MaskToken(t) == t
    ensures !Banned(t)
  {
    if Banned(t) {
      MaskNotBanned();
    }
  }

  /** Whole-token, case-insensitive matching: "Sharbert" is masked,
      "kerfuffle!" and "fornaxes" are not. */
  lemma MatchingIsWholeTokenCaseInsensitive()
    ensures MaskToken("Sharbert") == Mask
    ensures MaskToken("KERFUFFLE") == Mask
    ensures MaskToken("kerfuffle!") == "kerfuffle!"
    ensures MaskToken("fornaxes") == "fornaxes"
  {
    assert Lower("Sharbert") == "sharbert";
    assert Lower("KERFUFFLE") == "kerfuffle";
    NotBannedByLength("kerfuffle!");
    assert Lower("fornaxes") == "fornaxes";
  }

  /** The mask holds no space, so filtering keeps tokens space-free. */
  lemma MaskTokensSpaceFree(ts: seq<string>)
    requires AllSpaceFree(ts)
    ensures AllSpaceFree(MaskTokens(ts))
  {
    var ms := MaskTokens(ts);
    assert SpaceFree(Mask);
    forall i | 0 <= i < |ms| ensures SpaceFree(ms[i]) {
      if Banned(ts[i]) {
        assert ms[i] == Mask;
      } else {
        assert ms[i] == ts[i];
      }
    }
  }

  /** The filtered message is the filtered tokens joined by single spaces,
      without the empty tokens at either end: runs of spaces inside the
      message are kept, those at its ends are removed. */
  lemma ModerateShape(msg: string)
    ensures Moderate(msg) == Join(DropEdgeEmpty(MaskTokens(Split(msg))))
  {
    MaskTokensSpaceFree(Split(msg));
    TrimJoin(MaskTokens(Split(msg)));
  }

  /** Splitting the filtered message gives back the filtered tokens, in the
      order of the message, without the empty tokens at either end. */
  lemma ModerateTokens(msg: string)
    ensures var us := DropEdgeEmpty(MaskTokens(Split(msg)));
            us != [] ==> Split(Moderate(msg)) == us
    ensures DropEdgeEmpty(MaskTokens(Split(msg))) == [] ==> Moderate(msg) == ""
  {
    ModerateShape(msg);
    var ms := MaskTokens(Split(msg));
    MaskTokensSpaceFree(Split(msg));
    var us := DropEdgeEmpty(ms);
    if us != [] {
      DropEdgeEmptySpaceFree(ms);
      SplitJoin(us);
    }
  }

  /** Dropping tokens at the ends keeps the rest space-free. */
  lemma DropEdgeEmptySpaceFree(ts: seq<string>)
    requires AllSpaceFree(ts)
    ensures AllSpaceFree(DropEdgeEmpty(ts))
  {
    var us := DropEdgeEmpty(ts);
    forall j | 0 <= j < |us| ensures SpaceFree(us[j]) {
      assert us[j] == ts[|ts| - |DropLeadingEmpty(ts)| + j];
    }
  }

  /** Every token of the filtered message is a fixed point of the filter:
      either the mask or a token that is not banned. */
  lemma ModerateTokensFixed(msg: string)
    ensures var us := DropEdgeEmpty(MaskTokens(Split(msg)));
            forall j :: 0 <= j < |us| ==> MaskToken(us[j]) == us[j]
  {
    var ts := Split(msg);
    var ms := MaskTokens(ts);
    var us := DropEdgeEmpty(ms);
    forall j | 0 <= j < |us| ensures MaskToken(us[j]) == us[j] {
      var k := |ms| - |DropLeadingEmpty(ms)| + j;
      assert us[j] == ms[k];
      MaskedTokenFixed(ts, k);
    }
  }

  /** Each filtered token is a fixed point of the filter. */
  lemma MaskedTokenFixed(ts: seq<string>, k: int)
    requires 0 <= k < |ts|
    ensures MaskToken(MaskTokens(ts)[k]) == MaskTokens(ts)[k]
  {
    MaskTokenIdempotent(ts[k]);
    assert MaskTokens(ts)[k] == MaskToken(ts[k]);
  }

  /** No token of the filtered message is a banned word, whatever its case. */
  lemma ModerateLeavesNoBadWord(msg: string)
    ensures forall t :: t in Split(Moderate(msg)) ==> !Banned(t)
  {
    var us := DropEdgeEmpty(MaskTokens(Split(msg)));
    ModerateTokens(msg);
    if us == [] {
      assert Moderate(msg) == "";
      EmptyMessageClean();
    } else {
      ModerateTokensFixed(msg);
      FixedTokensNotBanned(us);
      assert Split(Moderate(msg)) == us;
    }
  }

  /** The empty message is one empty token, which is not banned. */
  lemma EmptyMessageClean()
    ensures forall t :: t in Split("") ==> !Banned(t)
  {
    assert Split("") == [""];
    NotBannedByLength("");
  }

  /** Tokens the filter leaves alone hold no banned word. */
  lemma FixedTokensNotBanned(us: seq<string>)
    requires forall j :: 0 <= j < |us| ==> MaskToken(us[j]) == us[j]
    ensures forall t :: t in us ==> !Banned(t)
  {
    forall t | t in us ensures !Banned(t) {
      var j :| 0 <= j < |us| && us[j] == t;
      FixedNotBanned(t);
    }
  }

  /** A message with no banned token and no space at either end passes the
      filter unchanged, runs of spaces inside it included. */
  lemma ModerateKeepsCleanMessage(msg: string)
    requires EdgeSpaceFree(msg)
    requires forall t :: t in Split(msg) ==> !Banned(t)
    ensures Moderate(msg) == msg
  {
    var ts := Split(msg);
    assert MaskTokens(ts) == ts;
    JoinSplit(msg);
  }

  /** Filtering twice is filtering once. */
  lemma ModerateIdempotent(msg: string)
    ensures Moderate(Moderate(msg)) == Moderate(msg)
  {
    var r := Moderate(msg);
    ModerateLeavesNoBadWord(msg);
    ModerateKeepsCleanMessage(r);
  }

  /** Each banned word, in any case, is masked: the list holds the words in
      lower case. */
  lemma BadWordsMasked(t: string)
    requires Lower(t) in BadWords
    ensures Lower(t) == t ==> t in BadWords
    ensures MaskToken(t) == Mask
    ensures forall w :: w in BadWords ==> Lower(w) == w
  {
    assert Lower("kerfuffle") == "kerfuffle";
    assert Lower("sharbert") == "sharbert";
    assert Lower("fornax") == "fornax";
  }

  /** Lower-casing maps upper-case ASCII letters to lower case, leaves
      every other byte alone, keeps the spaces where they are, and is
      idempotent. */
  lemma LowerIsAsciiLowerCase(s: string)
    ensures |Lower(s)| == |s|
    ensures forall i :: 0 <= i < |s| ==> !('A' <= Lower(s)[i] <= 'Z')
    ensures forall i :: 0 <= i < |s| && 'A' <= s[i] <= 'Z' ==> Lower(s)[i] as int == s[i] as int + 32
    ensures forall i :: 0 <= i < |s| && !('A' <= s[i] <= 'Z') ==> Lower(s)[i] == s[i]
    ensures forall i :: 0 <= i < |s| ==> (Lower(s)[i] == ' ') == (s[i] == ' ')
    ensures Lower(Lower(s)) == Lower(s)
  {
  }

  /** Masking never lengthens a token: every banned word is longer than
      the mask. */
  lemma MaskTokenNoLonger(t: string)
    ensures |MaskToken(t)| <= |t|
  {
    if Banned(t) {
      assert |Lower(t)| == |t|;
    }
  }

  /** Joining tokens that are each no longer gives a string no longer. */
  lemma {:induction false} JoinNoLonger(ts: seq<string>, us: seq<string>)
    requires |us| == |ts|
    requires forall i :: 0 <= i < |ts| ==> |us[i]| <= |ts[i]|
    ensures |Join(us)| <= |Join(ts)|
    decreases |ts|
  {
    if |ts| > 1 {
      JoinNoLonger(ts[1..], us[1..]);
    }
  }

  /** The filtered message is never longer than the message. */
  lemma ModerateNoLonger(msg: string)
    ensures |Moderate(msg)| <= |msg|
  {
    var ts := Split(msg);
    var ms := MaskTokens(ts);
    forall i | 0 <= i < |ts| ensures |ms[i]| <= |ts[i]| {
      MaskTokenNoLonger(ts[i]);
      assert ms[i] == MaskToken(ts[i]);
    }
    JoinNoLonger(ts, ms);
    JoinSplit(msg);
  }

  /** The words of the example sentence other than "kerfuffle" are not
      banned, so only that one is masked. */
  lemma KerfuffleWordsMasked(words: seq<string>)
    requires words == ["This", "is", "a", "kerfuffle", "opinion", "I", "need", "to", "share", "with", "the", "world"]
    ensures MaskTokens(words) == words[3 := Mask]
  {
    NotBannedByLength("This"); NotBannedByLength("is"); NotBannedByLength("a");
    NotBannedByLength("opinion"); NotBannedByLength("I"); NotBannedByLength("need");
    NotBannedByLength("to"); NotBannedByLength("share"); NotBannedByLength("with");
    NotBannedByLength("the"); NotBannedByLength("world");
    assert Lower("kerfuffle") == "kerfuffle";
  }

  /** The example sentence, as its words joined by single spaces:
      "This is a kerfuffle opinion I need to share with the world" becomes
      "This is a **** opinion I need to share with the world". */
  lemma KerfuffleExample(words: seq<string>)
    requires words == ["This", "is", "a", "kerfuffle", "opinion", "I", "need", "to", "share", "with", "the", "world"]
    ensures Moderate(Join(words)) == Join(words[3 := Mask])
  {
    var ms := words[3 := Mask];
    assert AllSpaceFree(words);
    KerfuffleWordsMasked(words);
    assert DropLeadingEmpty(ms) == ms;
    assert DropTrailingEmpty(ms) == ms;
    SplitJoin(words);
    ModerateShape(Join(words));
  }






  /** A run of spaces inside a message is kept: "a  b" is its own
      filtered form. */
  lemma InteriorSpacingKept(words: seq<string>)
    requires words == ["a", "", "b"]
    ensures Join(words) == "a  b"
    ensures Moderate(Join(words)) == Join(words)
  {
    JoinCons("", ["b"]);
    JoinCons("a", ["", "b"]);
    assert words == ["a"] + ["", "b"];
    assert AllSpaceFree(words);
    SplitJoin(words);
    NotBannedByLength("a");
    NotBannedByLength("");
    NotBannedByLength("b");
    ModerateKeepsCleanMessage(Join(words));
  }

  /** A space in front of a message does not change its filtered form. */
  lemma ModerateIgnoresLeadingSpace(msg: string)
    ensures Moderate(" " + msg) == Moderate(msg)
  {
    var ts := Split(msg);
    assert (" " + msg)[1..] == msg;
    assert Split(" " + msg) == [""] + ts;
    NotBannedByLength("");
    assert MaskTokens([""] + ts) == [""] + MaskTokens(ts);
    JoinEmptyCons(MaskTokens(ts));
    TrimLeadingSpace(Join(MaskTokens(ts)));
  }

  /** Spaces at the ends of a message are removed: " Fornax " becomes
      "****". */
  lemma EdgeSpacingTrimmed(words: seq<string>)
    requires words == ["", "Fornax", ""]
    ensures Join(words) == " Fornax "
    ensures Moderate(Join(words)) == Mask
  {
    FornaxSpelled(words);
    FornaxMasked(words);
    SpacePaddedTrimmed(Mask);
  }

  lemma FornaxSpelled(words: seq<string>)
    requires words == ["", "Fornax", ""]
    ensures Join(words) == " Fornax "
  {
    var t := words[1];
    JoinCons(t, [""]);
    assert words[1..] == [t] + [""];
    JoinEmptyCons(words[1..]);
    assert words == [""] + words[1..];
    assert Join(words) == " " + (t + " " + "");
  }

  lemma FornaxMasked(words: seq<string>)
    requires words == ["", "Fornax", ""]
    ensures MaskTokens(Split(Join(words))) == ["", Mask, ""]
  {
    assert AllSpaceFree(words);
    SplitJoin(words);
    NotBannedByLength("");
    assert Lower("Fornax") == "fornax";
  }

  /** A token between two empty tokens joins to the token with one space on
      each side, and trimming gives the token back. */
  lemma SpacePaddedTrimmed(t: string)
    requires t != [] && EdgeSpaceFree(t)
    ensures Trim(Join(["", t, ""])) == t
  {
    var ts := ["", t, ""];
    assert ts[1..][1..] == [""];
    assert Join(ts[1..]) == t + " ";
    JoinEmptyCons(ts[1..]);
    assert ts == [""] + ts[1..];
    TrimLeadingSpace(t + " ");
    assert TrimLeft(t + " ") == t + " ";
    assert (t + " ")[..|t|] == t;
    assert TrimRight(t + " ") == TrimRight(t);
    assert TrimLeft(t) == t;
  }



}
