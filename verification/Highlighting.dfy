/** The highlighter of search results: the text as HTML, with what the query matches in bold. */
module Highlighting {
  import opened Options

  // ----- Escaping

  const OPEN_TAG := "<b>"
  const CLOSE_TAG := "</b>"

  function EscapeChar(c: char): string {
    match c
    case '&' => "&amp;"
    case '<' => "&lt;"
    case '>' => "&gt;"
    case '\'' => "&#039;"
    case '"' => "&quot;"
    case _ => [c]
  }

  function Escape(text: string): string {
    if text == [] then [] else EscapeChar(text[0]) + Escape(text[1..])
  }

  // ----- Reading HTML back

  /** A character as it is shown, in bold or not. */
  type Shown = (char, bool)

  predicate StartsWith(s: string, prefix: string) {
    prefix <= s
  }

  /** What HTML made of text, character references and bold tags shows. */
  function Read(html: string, bold: bool): seq<Shown>
    decreases |html|
  {
    if html == [] then []
    else if StartsWith(html, "<b>") then Read(html[3..], true)
    else if StartsWith(html, "</b>") then Read(html[4..], false)
    else if StartsWith(html, "&amp;") then [('&', bold)] + Read(html[5..], bold)
    else if StartsWith(html, "&lt;") then [('<', bold)] + Read(html[4..], bold)
    else if StartsWith(html, "&gt;") then [('>', bold)] + Read(html[4..], bold)
    else if StartsWith(html, "&#039;") then [('\'', bold)] + Read(html[6..], bold)
    else if StartsWith(html, "&quot;") then [('"', bold)] + Read(html[6..], bold)
    else [(html[0], bold)] + Read(html[1..], bold)
  }

  function Shows(text: string, bold: bool): (r: seq<Shown>)
    ensures |r| == |text| && forall i :: 0 <= i < |text| ==> r[i] == (text[i], bold)
  {
    seq(|text|, i requires 0 <= i < |text| => (text[i], bold))
  }

  lemma ReadChar(c: char, rest: string, bold: bool)
    ensures Read(EscapeChar(c) + rest, bold) == [(c, bold)] + Read(rest, bold)
  {
    var e := EscapeChar(c);
    var html := e + rest;
    assert html[|e|..] == rest && html[..|e|] == e && html[0] == e[0];
    if |e| > 1 {
      assert html[1] == e[1] && html[2] == e[2];
      SecondDiffers(html);
    }
  }

  lemma SecondDiffers(html: string)
    requires |html| > 1 && html[0] == '&'
    ensures !StartsWith(html, OPEN_TAG) && !StartsWith(html, CLOSE_TAG)
    ensures StartsWith(html, "&amp;") ==> html[1] == 'a'
    ensures StartsWith(html, "&lt;") ==> html[1] == 'l'
    ensures StartsWith(html, "&gt;") ==> html[1] == 'g'
    ensures StartsWith(html, "&#039;") ==> html[1] == '#'
    ensures StartsWith(html, "&quot;") ==> html[1] == 'q'
  {
  }

  lemma EscapedFirst(text: string, rest: string)
    requires text != []
    ensures Escape(text) + rest == EscapeChar(text[0]) + (Escape(text[1..]) + rest)
  {
    hide EscapeChar;
  }

  /** Escaped text reads as the text it was. */
  lemma {:induction false} ReadEscaped(text: string, rest: string, bold: bool)
    ensures Read(Escape(text) + rest, bold) == Shows(text, bold) + Read(rest, bold)
    decreases |text|
  {
    hide *;
    if text == [] {
      NothingEscaped(rest);
      assert Shows(text, bold) + Read(rest, bold) == Read(rest, bold);
    } else {
      EscapedFirst(text, rest);
      ReadChar(text[0], Escape(text[1..]) + rest, bold);
      ReadEscaped(text[1..], rest, bold);
      ShowsFirst(text, bold, Read(rest, bold));
    }
  }

  /** And it has no character that begins or ends a tag, a string or, other than those of
      the five characters escaped, a character reference. */
  lemma {:induction false} EscapedIsText(text: string)
    ensures forall c :: c in Escape(text) ==> c !in "<>'\""
    ensures forall i :: 0 <= i < |Escape(text)| && Escape(text)[i] == '&' ==> ReferenceAt(Escape(text), i)
    decreases |text|
  {
    if text != [] {
      EscapedIsText(text[1..]);
      var e, rest := EscapeChar(text[0]), Escape(text[1..]);
      assert Escape(text) == e + rest;
      forall i | 0 <= i < |Escape(text)| && Escape(text)[i] == '&'
        ensures ReferenceAt(Escape(text), i)
      {
        if i < |e| {
          assert (e + rest)[i..] == e + rest;
        } else {
          assert (e + rest)[i..] == rest[i - |e|..];
        }
      }
    }
  }

  predicate ReferenceAt(html: string, i: nat)
    requires i <= |html|
  {
    var t := html[i..];
    || StartsWith(t, "&amp;") || StartsWith(t, "&lt;") || StartsWith(t, "&gt;")
    || StartsWith(t, "&#039;") || StartsWith(t, "&quot;")
  }

  lemma NothingEscaped(rest: string)
    ensures Escape([]) + rest == rest
  {
  }

  lemma ShowsFirst(text: string, bold: bool, rest: seq<Shown>)
    requires text != []
    ensures Shows(text, bold) + rest == [(text[0], bold)] + (Shows(text[1..], bold) + rest)
  {
    assert Shows(text, bold) == [(text[0], bold)] + Shows(text[1..], bold);
  }

  lemma ReadTags(rest: string, bold: bool)
    ensures Read(OPEN_TAG + rest, bold) == Read(rest, true) && Read(CLOSE_TAG + rest, bold) == Read(rest, false)
  {
    assert (OPEN_TAG + rest)[3..] == rest && (CLOSE_TAG + rest)[4..] == rest;
    assert (CLOSE_TAG + rest)[1] == '/' && OPEN_TAG[1] == 'b';
  }

  // ----- Occurrences

  predicate OccursAt(s: string, x: string, p: int) {
    0 <= p && p + |x| <= |s| && s[p..p + |x|] == x
  }

  /** The first occurrence from a position on. */
  ghost predicate NextIs(s: string, x: string, from: nat, p: Option<nat>) {
    && (p.Some? ==> from <= p.value && OccursAt(s, x, p.value))
    && forall q :: from <= q < (if p.Some? then p.value else |s| + 1) ==> !OccursAt(s, x, q)
  }

  /** `indexOf`. */
  method IndexOf(s: string, x: string, from: nat) returns (p: Option<nat>)
    ensures NextIs(s, x, from, p)
  {
    var i := from;
    while i + |x| <= |s|
      invariant from <= i
      invariant forall q :: from <= q < i ==> !OccursAt(s, x, q)
    {
      if s[i..i + |x|] == x {
        return Some(i);
      }
      i := i + 1;
    }
    p := None;
  }

  /** Occurrences that do not overlap, such that every occurrence that ends by `end` begins
      within one of them: the leftmost ones. */
  ghost predicate Leftmost(s: string, x: string, end: int, ps: seq<nat>) {
    && (forall i :: 0 <= i < |ps| ==> OccursAt(s, x, ps[i]) && ps[i] + |x| <= end)
    && (forall i, j :: 0 <= i < j < |ps| ==> ps[i] + |x| <= ps[j])
    && (forall p :: OccursAt(s, x, p) && p < end ==> Within(x, ps, p))
  }

  /** The position lies in one of the occurrences. */
  predicate Within(x: string, ps: seq<nat>, p: int) {
    exists i :: 0 <= i < |ps| && ps[i] <= p < ps[i] + |x|
  }

  /** There is one such list. */
  lemma LeftmostUnique(s: string, x: string, end: int, ps: seq<nat>, qs: seq<nat>)
    requires x != [] && Leftmost(s, x, end, ps) && Leftmost(s, x, end, qs)
    ensures ps == qs
  {
    if |ps| <= |qs| {
      SamePrefix(s, x, end, ps, qs, |ps|);
      assert ps[..|ps|] == ps;
      NoLonger(s, x, end, ps, qs);
    } else {
      SamePrefix(s, x, end, ps, qs, |qs|);
      assert qs[..|qs|] == qs;
      NoLonger(s, x, end, qs, ps);
    }
  }

  lemma {:induction false} SamePrefix(s: string, x: string, end: int, ps: seq<nat>, qs: seq<nat>, n: nat)
    requires x != [] && Leftmost(s, x, end, ps) && Leftmost(s, x, end, qs) && n <= |ps| && n <= |qs|
    ensures ps[..n] == qs[..n]
    decreases n
  {
    if n > 0 {
      SamePrefix(s, x, end, ps, qs, n - 1);
      NotEarlier(s, x, end, ps, qs, n - 1);
      NotEarlier(s, x, end, qs, ps, n - 1);
      assert ps[..n] == ps[..n - 1] + [ps[n - 1]] && qs[..n] == qs[..n - 1] + [qs[n - 1]];
    }
  }

  lemma NotEarlier(s: string, x: string, end: int, ps: seq<nat>, qs: seq<nat>, k: nat)
    requires x != [] && Leftmost(s, x, end, ps) && Leftmost(s, x, end, qs)
    requires k < |ps| && k < |qs| && ps[..k] == qs[..k]
    ensures ps[k] <= qs[k]
  {
    Apart(s, x, end, qs, k);
    assert Within(x, ps, qs[k]);
    Rising(s, x, end, ps, k);
    hide *;
    WithinLater(x, ps, k, qs[k]);
  }

  lemma WithinLater(x: string, ps: seq<nat>, k: nat, p: nat)
    requires k <= |ps| && Within(x, ps, p) && !Within(x, ps[..k], p)
    ensures exists i :: k <= i < |ps| && ps[i] <= p
  {
    assert forall j :: 0 <= j < k ==> ps[..k][j] == ps[j];
    var i :| 0 <= i < |ps| && ps[i] <= p < ps[i] + |x|;
  }

  lemma Rising(s: string, x: string, end: int, ps: seq<nat>, k: nat)
    requires Leftmost(s, x, end, ps) && k < |ps|
    ensures forall i :: k <= i < |ps| ==> ps[k] <= ps[i]
  {
  }

  lemma NoLonger(s: string, x: string, end: int, ps: seq<nat>, qs: seq<nat>)
    requires x != [] && Leftmost(s, x, end, ps) && Leftmost(s, x, end, qs)
    requires |ps| <= |qs| && ps == qs[..|ps|]
    ensures ps == qs
  {
    hide OccursAt;
    if |ps| < |qs| {
      Apart(s, x, end, qs, |ps|);
    }
  }

  lemma Apart(s: string, x: string, end: int, ps: seq<nat>, k: nat)
    requires x != [] && Leftmost(s, x, end, ps) && k < |ps|
    ensures !Within(x, ps[..k], ps[k]) && OccursAt(s, x, ps[k]) && ps[k] < end
  {
  }

  // ----- The highlighter

  /** `substring`, which stops at the end of the text. */
  function Substring(s: string, from: nat, to: nat): string {
    if from >= |s| || to <= from then [] else if to >= |s| then s[from..] else s[from..to]
  }

  /** The first `n` characters of the text, those within the occurrences in bold. */
  ghost predicate ShowsUpTo(shown: seq<Shown>, text: string, n: int, x: string, ps: seq<nat>) {
    && |shown| == (if n < |text| then n else |text|)
    && forall i :: 0 <= i < |shown| ==> shown[i] == (text[i], Within(x, ps, i))
  }

  /** For a query that is not empty, the HTML shows the text, and exactly the leftmost
      occurrences of the lowercased query in the lowercased text are in bold. */
  method Highlight(text: string, query: string, lower: string -> string) returns (html: string, ghost ps: seq<nat>)
    requires query != [] ==> lower(query) != []
    ensures query == [] ==> html == text
    ensures query != [] ==> Leftmost(lower(text), lower(query), |lower(text)| + 1, ps)
    ensures query != [] ==> ShowsUpTo(Read(html, false), text, |text|, lower(query), ps)
  {
    ps := [];
    if query == [] {
      html := text;
      return;
    }
    hide Leftmost;
    hide ShowsUpTo;
    hide OccursAt;
    hide Read;
    hide Substring;
    hide Escape;
    var lowerText, x := lower(text), lower(query);
    html := [];
    var last := 0;
    ghost var shown: seq<Shown> := [];
    NothingYet(lowerText, text, x);
    var index := IndexOf(lowerText, x, 0);
    while index.Some?
      invariant Leftmost(lowerText, x, last, ps) && last <= |lowerText|
      invariant NextIs(lowerText, x, last, index)
      invariant ShowsUpTo(shown, text, last, x, ps) && forall rest :: ReadsAs(html, rest, shown)
      decreases |lowerText| - last
    {
      var o := index.value;
      ghost var html0 := html;
      html := html + Escape(Substring(text, last, o));
      html := html + (OPEN_TAG + Escape(Substring(text, o, o + |x|)) + CLOSE_TAG);
      OneMore(lowerText, text, x, last, o, ps);
      MoreShown(shown, text, last, o, x, ps);
      shown := MoreRead(html0, shown, Substring(text, last, o), Substring(text, o, o + |x|));
      last := o + |x|;
      ps := ps + [o];
      index := IndexOf(lowerText, x, last);
    }
    ghost var html0 := html;
    html := html + Escape(Substring(text, last, |text|));
    NoneLeft(lowerText, x, last, ps);
    LastShown(shown, text, last, x, ps);
    LastRead(html0, shown, Substring(text, last, |text|));
  }

  /** What the HTML so far shows, whatever comes after it. */
  predicate ReadsAs(html: string, rest: string, shown: seq<Shown>) {
    Read(html + rest, false) == shown + Read(rest, false)
  }

  lemma NothingYet(s: string, text: string, x: string)
    requires x != []
    ensures Leftmost(s, x, 0, []) && ShowsUpTo([], text, 0, x, []) && forall rest :: ReadsAs("", rest, [])
  {
    forall rest
      ensures ReadsAs("", rest, [])
    {
      assert "" + rest == rest;
    }
  }

  lemma OneMore(s: string, text: string, x: string, last: nat, o: nat, ps: seq<nat>)
    requires x != [] && Leftmost(s, x, last, ps) && NextIs(s, x, last, Some(o))
    ensures Leftmost(s, x, o + |x|, ps + [o]) && last <= o && o + |x| <= |s|
  {
    WithinMore(x, ps, o);
  }

  lemma WithinMore(x: string, ps: seq<nat>, o: nat)
    ensures forall p :: Within(x, ps + [o], p) <==> Within(x, ps, p) || o <= p < o + |x|
  {
    var more := ps + [o];
    assert more[|ps|] == o;
    forall p
      ensures Within(x, more, p) <==> Within(x, ps, p) || o <= p < o + |x|
    {
      if i :| 0 <= i < |ps| && ps[i] <= p < ps[i] + |x| {
        assert more[i] == ps[i];
      }
    }
  }

  lemma NoneLeft(s: string, x: string, last: nat, ps: seq<nat>)
    requires Leftmost(s, x, last, ps) && last <= |s| && NextIs(s, x, last, None)
    ensures Leftmost(s, x, |s| + 1, ps)
  {
    assert forall p :: OccursAt(s, x, p) && p < |s| + 1 ==> p < last;
  }

  lemma MoreShown(shown: seq<Shown>, text: string, last: nat, o: nat, x: string, ps: seq<nat>)
    requires ShowsUpTo(shown, text, last, x, ps) && last <= o && forall i :: 0 <= i < |ps| ==> ps[i] + |x| <= last
    ensures ShowsUpTo(shown + Shows(Substring(text, last, o), false) + Shows(Substring(text, o, o + |x|), true), text,
                      o + |x|, x, ps + [o])
  {
    PlainShown(shown, text, last, o, x, ps);
    BoldShown(shown + Shows(Substring(text, last, o), false), text, o, x, ps);
  }

  lemma PlainShown(shown: seq<Shown>, text: string, last: nat, o: nat, x: string, ps: seq<nat>)
    requires ShowsUpTo(shown, text, last, x, ps) && last <= o && forall i :: 0 <= i < |ps| ==> ps[i] + |x| <= last
    ensures ShowsUpTo(shown + Shows(Substring(text, last, o), false), text, o, x, ps)
  {
    NotWithin(x, ps, last);
    hide Within;
    var more := Shows(Substring(text, last, o), false);
    forall i | |shown| <= i < |shown + more|
      ensures (shown + more)[i] == (text[i], Within(x, ps, i))
    {
      assert (shown + more)[i] == more[i - last];
    }
  }

  lemma BoldShown(shown: seq<Shown>, text: string, o: nat, x: string, ps: seq<nat>)
    requires ShowsUpTo(shown, text, o, x, ps)
    ensures ShowsUpTo(shown + Shows(Substring(text, o, o + |x|), true), text, o + |x|, x, ps + [o])
  {
    WithinMore(x, ps, o);
    hide Within;
    var more := Shows(Substring(text, o, o + |x|), true);
    forall i | 0 <= i < |shown + more|
      ensures (shown + more)[i] == (text[i], Within(x, ps + [o], i))
    {
      if i >= |shown| {
        assert (shown + more)[i] == more[i - o];
      }
    }
  }

  lemma LastShown(shown: seq<Shown>, text: string, last: nat, x: string, ps: seq<nat>)
    requires ShowsUpTo(shown, text, last, x, ps) && forall i :: 0 <= i < |ps| ==> ps[i] + |x| <= last
    ensures ShowsUpTo(shown + Shows(Substring(text, last, |text|), false), text, |text|, x, ps)
  {
    if last <= |text| {
      PlainShown(shown, text, last, |text|, x, ps);
    } else {
      assert shown + Shows(Substring(text, last, |text|), false) == shown;
    }
  }

  /** Nothing at or after `last` lies in the occurrences before it. */
  lemma NotWithin(x: string, ps: seq<nat>, last: nat)
    requires forall i :: 0 <= i < |ps| ==> ps[i] + |x| <= last
    ensures forall p :: p >= last ==> !Within(x, ps, p)
  {
  }

  lemma MoreRead(html: string, shown: seq<Shown>, plain: string, bold: string) returns (more: seq<Shown>)
    requires forall rest :: ReadsAs(html, rest, shown)
    ensures more == shown + Shows(plain, false) + Shows(bold, true)
    ensures forall rest :: ReadsAs(html + Escape(plain) + (OPEN_TAG + Escape(bold) + CLOSE_TAG), rest, more)
  {
    more := shown + Shows(plain, false) + Shows(bold, true);
    hide Read;
    hide Escape;
    forall rest
      ensures ReadsAs(html + Escape(plain) + (OPEN_TAG + Escape(bold) + CLOSE_TAG), rest, more)
    {
      var rest1 := CLOSE_TAG + rest;
      var rest2 := OPEN_TAG + (Escape(bold) + rest1);
      var rest3 := Escape(plain) + rest2;
      assert html + Escape(plain) + (OPEN_TAG + Escape(bold) + CLOSE_TAG) + rest == html + rest3;
      assert ReadsAs(html, rest3, shown);
      ReadEscaped(plain, rest2, false);
      ReadTags(Escape(bold) + rest1, false);
      ReadEscaped(bold, rest1, true);
      ReadTags(rest, true);
    }
  }

  lemma LastRead(html: string, shown: seq<Shown>, plain: string)
    requires forall rest :: ReadsAs(html, rest, shown)
    ensures Read(html + Escape(plain), false) == shown + Shows(plain, false)
  {
    assert ReadsAs(html, Escape(plain), shown);
    ReadEscaped(plain, "", false);
    assert Escape(plain) + "" == Escape(plain);
  }
}
