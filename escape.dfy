/**
 * `escapeHtml` of the contact page: five global replacements applied in a
 * chain, `&` first. The chain is shown equal to a per-character encoding,
 * from which its safety and its round trip through entity decoding follow.
 */
module Escape {

  /** The five characters `escapeHtml` rewrites. */
  predicate Reserved(c: char) {
    c == '&' || c == '<' || c == '>' || c == '"' || c == '\''
  }

  /** `s.replace(/c/g, rep)`. */
  function ReplaceAll(s: string, c: char, rep: string): string {
    if s == [] then []
    else (if s[0] == c then rep else [s[0]]) + ReplaceAll(s[1..], c, rep)
  }

  /** `escapeHtml`, exactly as the chain of replacements is written. */
  function EscapeHtml(s: string): string {
    var amp := ReplaceAll(s, '&', "&amp;");
    var lt := ReplaceAll(amp, '<', "&lt;");
    var gt := ReplaceAll(lt, '>', "&gt;");
    var quot := ReplaceAll(gt, '"', "&quot;");
    ReplaceAll(quot, '\'', "&#039;")
  }

  /** The entity each reserved character becomes; other characters stay. */
  function EncodeChar(c: char): string {
    if c == '&' then "&amp;"
    else if c == '<' then "&lt;"
    else if c == '>' then "&gt;"
    else if c == '"' then "&quot;"
    else if c == '\'' then "&#039;"
    else [c]
  }

  /** Character-by-character encoding: the reference for `EscapeHtml`. */
  function EncodeAll(s: string): string {
    if s == [] then [] else EncodeChar(s[0]) + EncodeAll(s[1..])
  }

  /** `t` begins with one of the five entities. */
  predicate StartsWithEntity(t: string) {
    "&amp;" <= t || "&lt;" <= t || "&gt;" <= t || "&quot;" <= t || "&#039;" <= t
  }

  /** HTML entity decoding restricted to the five entities. */
  function Unescape(t: string): string
    decreases |t|
  {
    if t == [] then []
    else if "&amp;" <= t then "&" + Unescape(t[5..])
    else if "&lt;" <= t then "<" + Unescape(t[4..])
    else if "&gt;" <= t then ">" + Unescape(t[4..])
    else if "&quot;" <= t then "\"" + Unescape(t[6..])
    else if "&#039;" <= t then "'" + Unescape(t[6..])
    else [t[0]] + Unescape(t[1..])
  }

  lemma {:induction false} ReplaceAllAppend(a: string, b: string, c: char, rep: string)
    ensures ReplaceAll(a + b, c, rep) == ReplaceAll(a, c, rep) + ReplaceAll(b, c, rep)
  {
    if a == [] {
      assert a + b == b;
    } else {
      var ab := a + b;
      var head := if a[0] == c then rep else [a[0]];
      assert ab[0] == a[0];
      assert ab[1..] == a[1..] + b;
      ReplaceAllAppend(a[1..], b, c, rep);
      assert ReplaceAll(ab, c, rep) == head + (ReplaceAll(a[1..], c, rep) + ReplaceAll(b, c, rep));
      AppendAssociates(head, ReplaceAll(a[1..], c, rep), ReplaceAll(b, c, rep));
    }
  }

  /** Associativity of `+`, stated on its own so that `ReplaceAllAppend` stays cheap to check. */
  lemma AppendAssociates(x: string, y: string, z: string)
    ensures x + (y + z) == (x + y) + z
  {
  }

  lemma {:induction false} ReplaceAllAbsent(t: string, c: char, rep: string)
    requires c !in t
    ensures ReplaceAll(t, c, rep) == t
  {
    if t != [] {
      ReplaceAllAbsent(t[1..], c, rep);
    }
  }

  lemma EscapeHtmlAppend(a: string, b: string)
    ensures EscapeHtml(a + b) == EscapeHtml(a) + EscapeHtml(b)
  {
    var a1, b1 := ReplaceAll(a, '&', "&amp;"), ReplaceAll(b, '&', "&amp;");
    ReplaceAllAppend(a, b, '&', "&amp;");
    var a2, b2 := ReplaceAll(a1, '<', "&lt;"), ReplaceAll(b1, '<', "&lt;");
    ReplaceAllAppend(a1, b1, '<', "&lt;");
    var a3, b3 := ReplaceAll(a2, '>', "&gt;"), ReplaceAll(b2, '>', "&gt;");
    ReplaceAllAppend(a2, b2, '>', "&gt;");
    var a4, b4 := ReplaceAll(a3, '"', "&quot;"), ReplaceAll(b3, '"', "&quot;");
    ReplaceAllAppend(a3, b3, '"', "&quot;");
    ReplaceAllAppend(a4, b4, '\'', "&#039;");
  }

  /** Replacing a character that is absent from a single entity leaves it alone. */
  lemma EntityUntouched(e: string, c: char, rep: string)
    requires e in {"&amp;", "&lt;", "&gt;", "&quot;", "&#039;"}
    requires Reserved(c) && c != '&'
    ensures ReplaceAll(e, c, rep) == e
  {
    ReplaceAllAbsent(e, c, rep);
  }

  lemma ReplaceAllSingle(x: char, c: char, rep: string)
    ensures ReplaceAll([x], c, rep) == if x == c then rep else [x]
  {
    assert [x][1..] == [];
  }

  /** A later replacement never touches an entity an earlier one produced. */
  lemma EscapeHtmlChar(c: char)
    ensures EscapeHtml([c]) == EncodeChar(c)
  {
    var t1 := ReplaceAll([c], '&', "&amp;");
    var t2 := ReplaceAll(t1, '<', "&lt;");
    var t3 := ReplaceAll(t2, '>', "&gt;");
    var t4 := ReplaceAll(t3, '"', "&quot;");
    var t5 := ReplaceAll(t4, '\'', "&#039;");
    assert EscapeHtml([c]) == t5;
    ReplaceAllSingle(c, '&', "&amp;");
    if c == '&' {
      EntityUntouched(t1, '<', "&lt;");
      EntityUntouched(t2, '>', "&gt;");
      EntityUntouched(t3, '"', "&quot;");
      EntityUntouched(t4, '\'', "&#039;");
    } else {
      ReplaceAllSingle(c, '<', "&lt;");
      if c == '<' {
        EntityUntouched(t2, '>', "&gt;");
        EntityUntouched(t3, '"', "&quot;");
        EntityUntouched(t4, '\'', "&#039;");
      } else {
        ReplaceAllSingle(c, '>', "&gt;");
        if c == '>' {
          EntityUntouched(t3, '"', "&quot;");
          EntityUntouched(t4, '\'', "&#039;");
        } else {
          ReplaceAllSingle(c, '"', "&quot;");
          if c == '"' {
            EntityUntouched(t4, '\'', "&#039;");
          } else {
            ReplaceAllSingle(c, '\'', "&#039;");
          }
        }
      }
    }
  }

  /** Because `&` goes first, the chain encodes each character independently: nothing is escaped twice. */
  lemma {:induction false} EscapeHtmlIsEncodeAll(s: string)
    ensures EscapeHtml(s) == EncodeAll(s)
  {
    if s != [] {
      EscapeHtmlIsEncodeAll(s[1..]);
      EscapeHtmlAppend([s[0]], s[1..]);
      EscapeHtmlChar(s[0]);
      assert s == [s[0]] + s[1..];
    }
  }

  /** Within one character's encoding, `&` is the only reserved character and comes only first, as an entity. */
  lemma EncodeCharShape(c: char)
    ensures forall k :: 0 <= k < |EncodeChar(c)| ==> !Reserved(EncodeChar(c)[k]) || EncodeChar(c)[k] == '&'
    ensures forall k :: 0 <= k < |EncodeChar(c)| && EncodeChar(c)[k] == '&' ==> k == 0 && StartsWithEntity(EncodeChar(c))
  {
  }

  /** An encoding holds no reserved character other than `&`. */
  lemma {:induction false} EncodeAllNoRaw(s: string)
    ensures forall i :: 0 <= i < |EncodeAll(s)| ==> !Reserved(EncodeAll(s)[i]) || EncodeAll(s)[i] == '&'
  {
    if s != [] {
      var e, rest := EncodeChar(s[0]), EncodeAll(s[1..]);
      EncodeAllNoRaw(s[1..]);
      EncodeCharShape(s[0]);
      assert EncodeAll(s) == e + rest;
      forall i | 0 <= i < |e + rest|
        ensures !Reserved((e + rest)[i]) || (e + rest)[i] == '&'
      {
        if i >= |e| { assert (e + rest)[i] == rest[i - |e|]; }
      }
    }
  }

  /** Every `&` of an encoding begins one of the five entities. */
  lemma {:induction false} EncodeAllAmpersands(s: string)
    ensures forall i :: 0 <= i < |EncodeAll(s)| && EncodeAll(s)[i] == '&' ==> StartsWithEntity(EncodeAll(s)[i..])
  {
    if s != [] {
      var e, rest := EncodeChar(s[0]), EncodeAll(s[1..]);
      EncodeAllAmpersands(s[1..]);
      EncodeCharShape(s[0]);
      assert EncodeAll(s) == e + rest;
      forall i | 0 <= i < |e + rest| && (e + rest)[i] == '&'
        ensures StartsWithEntity((e + rest)[i..])
      {
        if i < |e| {
          assert e[i] == '&';
          assert (e + rest)[i..] == e + rest;
          assert e <= e + rest;
        } else {
          assert (e + rest)[i] == rest[i - |e|];
          assert (e + rest)[i..] == rest[i - |e|..];
        }
      }
    }
  }

  /**
   * No `<`, `>`, `"` or `'` survives, and every `&` in the output begins
   * one of the five entities.
   */
  lemma EscapeHtmlSafe(s: string)
    ensures forall i :: 0 <= i < |EscapeHtml(s)| ==>
              EscapeHtml(s)[i] !in {'<', '>', '"', '\''}
    ensures forall i :: 0 <= i < |EscapeHtml(s)| && EscapeHtml(s)[i] == '&' ==>
              StartsWithEntity(EscapeHtml(s)[i..])
  {
    EscapeHtmlIsEncodeAll(s);
    EncodeAllNoRaw(s);
    EncodeAllAmpersands(s);
  }

  /** Decoding undoes one character's encoding in front of any rest. */
  lemma DecodeEncodeChar(c: char, rest: string)
    ensures Unescape(EncodeChar(c) + rest) == [c] + Unescape(rest)
  {
    var t := EncodeChar(c) + rest;
    if c == '&' {
      assert "&amp;" <= t && t[5..] == rest;
    } else if c == '<' {
      assert !("&amp;" <= t) by { assert t[1] == 'l'; }
      assert "&lt;" <= t && t[4..] == rest;
    } else if c == '>' {
      assert !("&amp;" <= t) by { assert t[1] == 'g'; }
      assert !("&lt;" <= t) by { assert t[1] == 'g'; }
      assert "&gt;" <= t && t[4..] == rest;
    } else if c == '"' {
      assert !("&amp;" <= t) && !("&lt;" <= t) && !("&gt;" <= t) by { assert t[1] == 'q'; }
      assert "&quot;" <= t && t[6..] == rest;
    } else if c == '\'' {
      assert !("&amp;" <= t) && !("&lt;" <= t) && !("&gt;" <= t) && !("&quot;" <= t) by { assert t[1] == '#'; }
      assert "&#039;" <= t && t[6..] == rest;
    } else {
      assert t[0] == c && t[1..] == rest;
      assert !StartsWithEntity(t) by { assert t[0] != '&'; }
    }
  }

  lemma {:induction false} DecodeEncodeAll(s: string)
    ensures Unescape(EncodeAll(s)) == s
  {
    if s != [] {
      DecodeEncodeAll(s[1..]);
      DecodeEncodeChar(s[0], EncodeAll(s[1..]));
      assert s == [s[0]] + s[1..];
    }
  }

  /** Decoding the five entities in `escapeHtml(s)` gives back `s`. */
  lemma EscapeHtmlRoundTrip(s: string)
    ensures Unescape(EscapeHtml(s)) == s
  {
    EscapeHtmlIsEncodeAll(s);
    DecodeEncodeAll(s);
  }

  /** Distinct inputs have distinct escapings. */
  lemma EscapeHtmlInjective(a: string, b: string)
    requires EscapeHtml(a) == EscapeHtml(b)
    ensures a == b
  {
    EscapeHtmlRoundTrip(a);
    EscapeHtmlRoundTrip(b);
  }

  lemma {:induction false} EncodeAllLength(s: string)
    ensures |EncodeAll(s)| >= |s|
    ensures |EncodeAll(s)| == |s| <==> forall i :: 0 <= i < |s| ==> !Reserved(s[i])
    ensures (forall i :: 0 <= i < |s| ==> !Reserved(s[i])) ==> EncodeAll(s) == s
  {
    if s != [] {
      EncodeAllLength(s[1..]);
      assert s == [s[0]] + s[1..];
      assert forall i :: 0 < i < |s| ==> s[i] == s[1..][i - 1];
    }
  }

  /**
   * The output is never shorter than the input, and it equals the input
   * exactly when the input holds none of the five reserved characters.
   */
  lemma EscapeHtmlIdentity(s: string)
    ensures |EscapeHtml(s)| >= |s|
    ensures EscapeHtml(s) == s <==> forall i :: 0 <= i < |s| ==> !Reserved(s[i])
  {
    EscapeHtmlIsEncodeAll(s);
    EncodeAllLength(s);
  }
}
