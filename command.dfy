/** Classification of the text the supervisor reads from standard input:
    the chunk is trimmed, lower-cased and compared with a small vocabulary. */
module Command {

  /** The words that request a reload, after trimming and lower-casing. */
  const ReloadCommands: set<string> := {"r", "reload", "hup"}

  /** The code points String.prototype.trim removes: ECMAScript WhiteSpace
      (TAB, VT, FF, ZWNBSP and every Unicode space separator) and
      LineTerminator (LF, CR, LS, PS). */
  predicate IsTrimmable(c: char)
    ensures IsTrimmable(c) ==> !('a' <= c <= 'z' || 'A' <= c <= 'Z' || '0' <= c <= '9')
  {
    c == '\t' || c == '\n' || c == '\U{B}' || c == '\U{C}' || c == '\r' || c == ' '
    || c == '\U{A0}' || c == '\U{1680}' || ('\U{2000}' <= c <= '\U{200A}')
    || c == '\U{2028}' || c == '\U{2029}' || c == '\U{202F}' || c == '\U{205F}'
    || c == '\U{3000}' || c == '\U{FEFF}'
  }

  /** Every character of `s[i..j]` is trimmable. */
  predicate Blank(s: string, i: nat, j: nat)
    requires i <= j <= |s|
  {
    forall k :: i <= k < j ==> IsTrimmable(s[k])
  }

  /** The first position at or after `i` that holds a character trim keeps,
      or `|s|` if there is none. */
  function SkipLeading(s: string, i: nat): (r: nat)
    requires i <= |s|
    ensures i <= r <= |s| && Blank(s, i, r)
    ensures r == |s| || !IsTrimmable(s[r])
    decreases |s| - i
  {
    if i < |s| && IsTrimmable(s[i]) then SkipLeading(s, i + 1) else i
  }

  /** The position just after the last character before `j`, and not before
      `lo`, that trim keeps, or `lo` if there is none. */
  function SkipTrailing(s: string, lo: nat, j: nat): (r: nat)
    requires lo <= j <= |s|
    ensures lo <= r <= j && Blank(s, r, j)
    ensures r == lo || !IsTrimmable(s[r - 1])
    decreases j
  {
    if lo < j && IsTrimmable(s[j - 1]) then SkipTrailing(s, lo, j - 1) else j
  }

  /** String.prototype.trim: drop the leading, then the trailing, trimmable
      characters. */
  function Trim(s: string): (r: string)
    ensures |r| <= |s|
    ensures r == [] || (!IsTrimmable(r[0]) && !IsTrimmable(r[|r| - 1]))
  {
    var lo := SkipLeading(s, 0);
    s[lo..SkipTrailing(s, lo, |s|)]
  }

  /** String.prototype.toLowerCase restricted to the ASCII letters. */
  function LowerChar(c: char): (r: char)
    ensures 'A' <= c <= 'Z' ==> 'a' <= r <= 'z' && r as int - c as int == 32
    ensures !('A' <= c <= 'Z') ==> r == c
  {
    if 'A' <= c <= 'Z' then (c as int + 32) as char else c
  }

  /** String.prototype.toLowerCase, character by character. */
  function ToLower(s: string): (r: string)
    ensures |r| == |s| && forall i :: 0 <= i < |s| ==> r[i] == LowerChar(s[i])
    ensures forall i :: 0 <= i < |r| ==> !('A' <= r[i] <= 'Z')
  {
    seq(|s|, i requires 0 <= i < |s| => LowerChar(s[i]))
  }

  /** The switch on a chunk of standard input: trim, lower-case, and accept
      exactly the reload vocabulary. */
  predicate IsReloadCommand(data: string)
    ensures IsReloadCommand(data) ==> 1 <= |Trim(data)| <= 6
  {
    ToLower(Trim(data)) in ReloadCommands
  }

  /** Reference definition: `data` is a reload word, in any ASCII case,
      surrounded by nothing but trimmable characters. */
  predicate PaddedCommand(data: string) {
    exists lo, hi :: 0 <= lo <= hi <= |data|
      && Blank(data, 0, lo) && Blank(data, hi, |data|)
      && ToLower(data[lo..hi]) in ReloadCommands
  }

  /** Trim undoes any padding with trimmable characters around a core that
      neither starts nor ends with one. */
  lemma TrimOfPadded(s: string, lo: nat, hi: nat)
    requires lo <= hi <= |s|
    requires Blank(s, 0, lo) && Blank(s, hi, |s|)
    requires lo == hi || (!IsTrimmable(s[lo]) && !IsTrimmable(s[hi - 1]))
    ensures Trim(s) == s[lo..hi]
  {
    var a := SkipLeading(s, 0);
    if lo == hi {
      assert forall k :: 0 <= k < |s| ==> IsTrimmable(s[k]) by {
        assert Blank(s, 0, lo) && Blank(s, hi, |s|);
      }
    } else {
      var b := SkipTrailing(s, lo, |s|);
      assert a == lo;
      assert b == hi;
    }
  }

  /** Conversely, every input is its trimmed text, which neither starts nor
      ends with a trimmable character, padded on both sides with trimmable
      characters only. */
  lemma TrimDecomposes(s: string) returns (lo: nat, hi: nat)
    ensures lo <= hi <= |s| && Trim(s) == s[lo..hi]
    ensures Blank(s, 0, lo) && Blank(s, hi, |s|)
    ensures lo == hi || (!IsTrimmable(s[lo]) && !IsTrimmable(s[hi - 1]))
  {
    lo := SkipLeading(s, 0);
    hi := SkipTrailing(s, lo, |s|);
    if lo == hi {
      assert Blank(s, hi, |s|);
      forall k | 0 <= k < lo ensures IsTrimmable(s[k]) {
        assert Blank(s, 0, lo);
      }
      lo, hi := 0, 0;
    }
  }

  /** Lower-casing never turns a trimmable character into another kind, or
      the other way round; a character that lower-cases to an ASCII letter
      is never trimmable. */
  lemma LowerKeepsTrimmable(c: char)
    ensures IsTrimmable(LowerChar(c)) <==> IsTrimmable(c)
    ensures 'a' <= LowerChar(c) <= 'z' ==> !IsTrimmable(c)
  {
  }

  /** Every reload word starts and ends with a letter, so a text that
      lower-cases to one neither starts nor ends with a trimmable character. */
  lemma ReloadWordEnds(w: string)
    requires ToLower(w) in ReloadCommands
    ensures |w| > 0 && !IsTrimmable(w[0]) && !IsTrimmable(w[|w| - 1])
  {
    var lw := ToLower(w);
    assert lw == "r" || lw == "reload" || lw == "hup";
    assert |w| > 0 && 'a' <= lw[0] <= 'z' && 'a' <= lw[|w| - 1] <= 'z';
    LowerKeepsTrimmable(w[0]);
    LowerKeepsTrimmable(w[|w| - 1]);
  }

  /** The bare lower-case reload words are recognised as they are typed. */
  lemma BareWordsAccepted(w: string)
    requires w in ReloadCommands
    ensures Trim(w) == w && ToLower(w) == w && IsReloadCommand(w)
  {
    assert forall i :: 0 <= i < |w| ==> 'a' <= w[i] <= 'z' by {
      assert w == "r" || w == "reload" || w == "hup";
    }
    assert ToLower(w) == w;
    assert !IsTrimmable(w[0]) && !IsTrimmable(w[|w| - 1]);
    TrimOfPadded(w, 0, |w|);
    assert w[0..|w|] == w;
  }

  /** A padded reload word is recognised. */
  lemma PaddedIsReloadCommand(data: string, lo: nat, hi: nat)
    requires lo <= hi <= |data|
    requires Blank(data, 0, lo) && Blank(data, hi, |data|)
    requires ToLower(data[lo..hi]) in ReloadCommands
    ensures IsReloadCommand(data)
  {
    ReloadWordEnds(data[lo..hi]);
    TrimOfPadded(data, lo, hi);
  }

  /** The recogniser accepts exactly the padded reload words. */
  lemma IsReloadCommandIff(data: string)
    ensures IsReloadCommand(data) <==> PaddedCommand(data)
  {
    if IsReloadCommand(data) {
      var lo, hi := TrimDecomposes(data);
      assert ToLower(data[lo..hi]) in ReloadCommands;
    }
    if PaddedCommand(data) {
      var lo, hi :| 0 <= lo <= hi <= |data|
        && Blank(data, 0, lo) && Blank(data, hi, |data|)
        && ToLower(data[lo..hi]) in ReloadCommands;
      PaddedIsReloadCommand(data, lo, hi);
    }
  }

  lemma ToLowerSlice(s: string, lo: nat, hi: nat)
    requires lo <= hi <= |s|
    ensures ToLower(s)[lo..hi] == ToLower(s[lo..hi])
  {
  }

  lemma ToLowerKeepsBlank(s: string, i: nat, j: nat)
    requires i <= j <= |s| && Blank(s, i, j)
    ensures Blank(ToLower(s), i, j)
  {
    forall k | i <= k < j ensures IsTrimmable(ToLower(s)[k]) {
      LowerKeepsTrimmable(s[k]);
    }
  }

  /** Lower-casing and trimming commute, so the order of `.trim()` and
      `.toLowerCase()` in the handler does not matter. */
  lemma TrimToLowerCommute(s: string)
    ensures Trim(ToLower(s)) == ToLower(Trim(s))
  {
    var lo, hi := TrimDecomposes(s);
    var l := ToLower(s);
    ToLowerKeepsBlank(s, 0, lo);
    ToLowerKeepsBlank(s, hi, |s|);
    if lo < hi {
      LowerKeepsTrimmable(s[lo]);
      LowerKeepsTrimmable(s[hi - 1]);
    }
    TrimOfPadded(l, lo, hi);
    ToLowerSlice(s, lo, hi);
  }
}
