/** The action directive that the assistant embeds in a chat reply,
    `[ACTION:KIND:TARGET]`, as the client recognises it with the pattern
    `/\[ACTION:([A-Z]+):([^\]]+)\]/`: the first match is taken, its text is
    removed from the reply with `replace`, the rest is trimmed, and a `PIN`
    kind asks for the pin toggle on TARGET. */
module Directive {
  import opened Mail
  import opened Text

  datatype Directive = Directive(kind: string, target: string)

  /** A match of the pattern: it starts at `start` and covers `length` characters. */
  datatype Match = Match(start: nat, length: nat, directive: Directive)

  /** What the client does with one reply: the text it shows and the id whose
      pin it toggles, if any. */
  datatype ReplyEffect = ReplyEffect(text: string, pinToggle: Option<string>)

  predicate IsNotCloseBracket(c: char) {
    c != ']'
  }

  /** The text of a directive with the given kind and target. */
  function DirectiveText(kind: string, target: string): string {
    "[ACTION:" + kind + ":" + target + "]"
  }

  /** The meaning of the pattern: at position `p` of `s` stands the text of a
      directive whose kind is one or more letters A to Z and whose target is
      one or more characters other than `]`. */
  ghost predicate DirectiveAt(s: string, p: nat, kind: string, target: string) {
    && |kind| >= 1 && (forall i :: 0 <= i < |kind| ==> IsAsciiUpper(kind[i]))
    && |target| >= 1 && ']' !in target
    && OccursAt(s, DirectiveText(kind, target), p)
  }

  /** Tries the pattern at position `p`: `[A-Z]+` can only end at the `:`, and
      `[^\]]+` can only end at the first `]`, so there is at most one match. */
  function MatchAt(s: string, p: nat): (r: Option<Match>)
    requires p <= |s|
    ensures r.Some? ==> r.value.start == p && 10 <= r.value.length && p + r.value.length <= |s|
  {
    if OccursAt(s, "[ACTION:", p) then
      var k := Span(s, p + 8, IsAsciiUpper);
      if k >= 1 && p + 8 + k < |s| && s[p + 8 + k] == ':' then
        var t := Span(s, p + 9 + k, IsNotCloseBracket);
        if t >= 1 && p + 9 + k + t < |s| then
          Some(Match(p, 10 + k + t, Directive(s[p + 8..p + 8 + k], s[p + 9 + k..p + 9 + k + t])))
        else None
      else None
    else None
  }

  /** Every match found is a directive text. */
  lemma MatchAtSound(s: string, p: nat)
    requires p <= |s| && MatchAt(s, p).Some?
    ensures var m := MatchAt(s, p).value;
            && DirectiveAt(s, p, m.directive.kind, m.directive.target)
            && m.length == |DirectiveText(m.directive.kind, m.directive.target)|
  {
    var m := MatchAt(s, p).value;
    var kind, target := m.directive.kind, m.directive.target;
    var k, t := |kind|, |target|;
    assert OccursAt(s, "[ACTION:", p);
    assert kind == s[p + 8..p + 8 + k] && target == s[p + 9 + k..p + 9 + k + t];
    assert forall i :: 0 <= i < k ==> kind[i] == s[p + 8 + i];
    assert forall i :: 0 <= i < t ==> target[i] == s[p + 9 + k + i];
    PiecesOccur(s, p, kind, target);
  }

  /** A string whose pieces at `p` are those of a directive's text holds that text at `p`. */
  lemma PiecesOccur(s: string, p: nat, kind: string, target: string)
    requires p + 10 + |kind| + |target| <= |s|
    requires s[p..p + 8] == "[ACTION:"
    requires s[p + 8..p + 8 + |kind|] == kind && s[p + 8 + |kind|] == ':'
    requires s[p + 9 + |kind|..p + 9 + |kind| + |target|] == target
    requires s[p + 9 + |kind| + |target|] == ']'
    ensures OccursAt(s, DirectiveText(kind, target), p)
  {
    var w := DirectiveText(kind, target);
    var k, t := |kind|, |target|;
    DirectiveTextLayout(kind, target);
    forall i | 0 <= i < |w| ensures s[p + i] == w[i] {
      if i < 8 {
        assert s[p + i] == s[p..p + 8][i] && w[i] == w[..8][i];
      } else if i < 8 + k {
        assert s[p + i] == s[p + 8..p + 8 + k][i - 8] && w[i] == w[8..8 + k][i - 8];
      } else if 9 + k <= i < 9 + k + t {
        assert s[p + i] == s[p + 9 + k..p + 9 + k + t][i - 9 - k] && w[i] == w[9 + k..9 + k + t][i - 9 - k];
      }
    }
    assert s[p..p + |w|] == w;
  }

  /** Where the pieces of a directive's text stand. */
  lemma DirectiveTextLayout(kind: string, target: string)
    ensures var w := DirectiveText(kind, target);
            && |w| == 10 + |kind| + |target|
            && w[..8] == "[ACTION:"
            && w[8..8 + |kind|] == kind
            && w[8 + |kind|] == ':'
            && w[9 + |kind|..9 + |kind| + |target|] == target
            && w[9 + |kind| + |target|] == ']'
  {
  }

  lemma SliceOfSlice(s: string, a: nat, b: nat, c: nat, d: nat)
    requires a <= b <= |s| && c <= d <= b - a
    ensures s[a..b][c..d] == s[a + c..a + d]
  {
    assert forall i :: 0 <= i < d - c ==> s[a..b][c..d][i] == s[a + c + i];
  }

  /** Where the pieces of a directive's text stand in a string that holds it. */
  lemma DirectivePieces(s: string, p: nat, kind: string, target: string)
    requires OccursAt(s, DirectiveText(kind, target), p)
    ensures var k, t := |kind|, |target|;
            && p + 10 + k + t <= |s|
            && s[p..p + 8] == "[ACTION:"
            && s[p + 8..p + 8 + k] == kind
            && s[p + 8 + k] == ':'
            && s[p + 9 + k..p + 9 + k + t] == target
            && s[p + 9 + k + t] == ']'
  {
    var w := DirectiveText(kind, target);
    var k, t := |kind|, |target|;
    DirectiveTextLayout(kind, target);
    var v := s[p..p + |w|];
    SliceOfSlice(s, p, p + |w|, 0, 8);
    SliceOfSlice(s, p, p + |w|, 8, 8 + k);
    SliceOfSlice(s, p, p + |w|, 9 + k, 9 + k + t);
    assert s[p + 8 + k] == v[8 + k];
    assert s[p + 9 + k + t] == v[9 + k + t];
  }

  /** The scanner's letter run at a directive text is exactly its kind. */
  lemma KindSpan(s: string, p: nat, kind: string, target: string)
    requires p <= |s| && DirectiveAt(s, p, kind, target)
    ensures p + 8 + |kind| < |s| && Span(s, p + 8, IsAsciiUpper) == |kind|
  {
    var k := |kind|;
    DirectivePieces(s, p, kind, target);
    forall j | p + 8 <= j < p + 8 + k ensures IsAsciiUpper(s[j]) {
      assert s[j] == s[p + 8..p + 8 + k][j - p - 8] == kind[j - p - 8];
    }
    SpanExact(s, p + 8, k, IsAsciiUpper);
  }

  /** The scanner's run up to `]` at a directive text is exactly its target. */
  lemma TargetSpan(s: string, p: nat, kind: string, target: string)
    requires p <= |s| && DirectiveAt(s, p, kind, target)
    ensures p + 9 + |kind| + |target| < |s|
    ensures Span(s, p + 9 + |kind|, IsNotCloseBracket) == |target|
  {
    var k, t := |kind|, |target|;
    DirectivePieces(s, p, kind, target);
    forall j | p + 9 + k <= j < p + 9 + k + t ensures IsNotCloseBracket(s[j]) {
      assert s[j] == s[p + 9 + k..p + 9 + k + t][j - p - 9 - k] == target[j - p - 9 - k];
    }
    SpanExact(s, p + 9 + k, t, IsNotCloseBracket);
  }

  /** Every directive text is found, with its kind and target. */
  lemma MatchAtComplete(s: string, p: nat, kind: string, target: string)
    requires p <= |s| && DirectiveAt(s, p, kind, target)
    ensures MatchAt(s, p) == Some(Match(p, |DirectiveText(kind, target)|, Directive(kind, target)))
  {
    var k, t := |kind|, |target|;
    assert OccursAt(s, "[ACTION:", p) && s[p + 8 + k] == ':'
           && s[p + 8..p + 8 + k] == kind && s[p + 9 + k..p + 9 + k + t] == target by {
      DirectivePieces(s, p, kind, target);
    }
    assert Span(s, p + 8, IsAsciiUpper) == k && Span(s, p + 9 + k, IsNotCloseBracket) == t by {
      KindSpan(s, p, kind, target);
      TargetSpan(s, p, kind, target);
    }
    MatchAtOfRuns(s, p, k, t);
    assert |DirectiveText(kind, target)| == 10 + k + t by {
      assert |"[ACTION:"| == 8;
    }
  }

  /** `MatchAt` in terms of the runs it scans: a kind of `k` letters and a target of `t` characters. */
  lemma MatchAtOfRuns(s: string, p: nat, k: nat, t: nat)
    requires p + 9 + k + t < |s| && 1 <= k && 1 <= t
    requires OccursAt(s, "[ACTION:", p) && s[p + 8 + k] == ':'
    requires Span(s, p + 8, IsAsciiUpper) == k && Span(s, p + 9 + k, IsNotCloseBracket) == t
    ensures MatchAt(s, p) == Some(Match(p, 10 + k + t, Directive(s[p + 8..p + 8 + k], s[p + 9 + k..p + 9 + k + t])))
  {
  }

  /** The pattern's first match at or after `from`, as `String.prototype.match` finds it. */
  function FirstMatch(s: string, from: nat): (r: Option<Match>)
    requires from <= |s|
    ensures r.Some? ==> from <= r.value.start <= |s| && MatchAt(s, r.value.start) == r
    ensures r.Some? ==> forall q :: from <= q < r.value.start ==> MatchAt(s, q).None?
    ensures r.None? ==> forall q :: from <= q <= |s| ==> MatchAt(s, q).None?
    decreases |s| - from
  {
    var m := MatchAt(s, from);
    if m.Some? then m
    else if from == |s| then None
    else FirstMatch(s, from + 1)
  }

  /** The client's handling of a reply: with a match, the matched text is
      removed with `replace` (its first occurrence) and the rest trimmed, and a
      `PIN` kind asks for the target's pin toggle; without one, the reply is
      shown as is. The matched text is the directive's text (`MatchAtSound`). */
  function Interpret(reply: string): ReplyEffect {
    match FirstMatch(reply, 0)
    case None => ReplyEffect(reply, None)
    case Some(m) => Effect(reply, m.directive)
  }

  /** The effect of a reply in which the directive `d` was matched: the reply
      without the first occurrence of the directive's text, trimmed, and the
      pin toggle the directive asks for. */
  function Effect(reply: string, d: Directive): (r: ReplyEffect)
    ensures |r.text| <= |reply|
  {
    ReplyEffect(Trim(RemoveFirst(reply, DirectiveText(d.kind, d.target))), PinTarget(d))
  }

  /** Only the `PIN` kind acts, by toggling the pin of its target. */
  function PinTarget(d: Directive): Option<string> {
    if d.kind == "PIN" then Some(d.target) else None
  }

  // ---------------------------------------------------------------------
  // What the parse promises, stated on the pattern's meaning

  /** With no directive text anywhere, the reply is shown unchanged and
      untrimmed, and no pin changes. */
  lemma NoDirectiveNoEffect(reply: string)
    requires forall p: nat, kind, target :: !DirectiveAt(reply, p, kind, target)
    ensures Interpret(reply) == ReplyEffect(reply, None)
  {
    var r := FirstMatch(reply, 0);
    if r.Some? {
      MatchAtSound(reply, r.value.start);
      assert false;
    }
  }

  /** No directive text before `p` means no match of the scanner before `p`. */
  lemma NoMatchBefore(reply: string, p: nat)
    requires p <= |reply|
    requires forall q: nat, k, t :: q < p ==> !DirectiveAt(reply, q, k, t)
    ensures forall q :: 0 <= q < p ==> MatchAt(reply, q).None?
  {
    forall q | 0 <= q < p ensures MatchAt(reply, q).None? {
      if MatchAt(reply, q).Some? {
        MatchAtSound(reply, q);
        assert false;
      }
    }
  }

  /** The scanner stops at the leftmost directive text. */
  lemma FirstMatchIsLeftmost(reply: string, p: nat, kind: string, target: string)
    requires DirectiveAt(reply, p, kind, target)
    requires forall q: nat, k, t :: q < p ==> !DirectiveAt(reply, q, k, t)
    ensures FirstMatch(reply, 0) == Some(Match(p, |DirectiveText(kind, target)|, Directive(kind, target)))
  {
    MatchAtComplete(reply, p, kind, target);
    NoMatchBefore(reply, p);
  }

  /** The first occurrence of the leftmost directive's text is that directive itself. */
  lemma FirstOccurrenceIsLeftmost(reply: string, p: nat, kind: string, target: string)
    requires DirectiveAt(reply, p, kind, target)
    requires forall q: nat, k, t :: q < p ==> !DirectiveAt(reply, q, k, t)
    ensures IndexOf(reply, DirectiveText(kind, target), 0) == p
  {
    var w := DirectiveText(kind, target);
    forall q: nat | q < p ensures !OccursAt(reply, w, q) {
      assert !DirectiveAt(reply, q, kind, target);
    }
  }

  /** The leftmost directive text decides: its text is cut out, the rest is
      trimmed, and only a `PIN` kind toggles a pin, on its target. */
  lemma FirstDirectiveDecides(reply: string, p: nat, kind: string, target: string)
    requires DirectiveAt(reply, p, kind, target)
    requires forall q: nat, k, t :: q < p ==> !DirectiveAt(reply, q, k, t)
    ensures var n := |DirectiveText(kind, target)|;
            Interpret(reply) == ReplyEffect(Trim(reply[..p] + reply[p + n..]),
                                            if kind == "PIN" then Some(target) else None)
  {
    var w := DirectiveText(kind, target);
    var m := Match(p, |w|, Directive(kind, target));
    assert Effect(reply, m.directive) == ReplyEffect(Trim(reply[..p] + reply[p + |w|..]), PinTarget(m.directive)) by {
      FirstOccurrenceIsLeftmost(reply, p, kind, target);
      RemoveFirstAt(reply, w, p);
    }
    assert Interpret(reply) == Effect(reply, m.directive) by {
      FirstMatchIsLeftmost(reply, p, kind, target);
      InterpretMatch(reply, m);
    }
  }

  lemma InterpretMatch(reply: string, m: Match)
    requires FirstMatch(reply, 0) == Some(m)
    ensures Interpret(reply) == Effect(reply, m.directive)
  {
  }

  /** The command the assistant is told to append, `[ACTION:PIN:<id>]`, is
      honoured for every non-empty id without `]`, when the text before it
      holds no `[`: the text is shown trimmed and the id's pin is toggled. */
  lemma AdvertisedCommandAccepted(text: string, id: string)
    requires '[' !in text
    requires id != "" && ']' !in id
    ensures Interpret(text + DirectiveText("PIN", id)) == ReplyEffect(Trim(text), Some(id))
  {
    var w := DirectiveText("PIN", id);
    var reply := text + w;
    assert reply[|text|..|text| + |w|] == w;
    assert DirectiveAt(reply, |text|, "PIN", id);
    forall q: nat, k, t | q < |text| ensures !DirectiveAt(reply, q, k, t) {
      assert reply[q] == text[q] != '[';
      assert DirectiveText(k, t)[0] == '[';
    }
    FirstDirectiveDecides(reply, |text|, "PIN", id);
    assert reply[..|text|] + reply[|text| + |w|..] == text;
  }

  /** A kind other than `PIN` is stripped from the text but changes no pin. */
  lemma UnknownKindIsStrippedOnly(reply: string)
    requires FirstMatch(reply, 0).Some? && FirstMatch(reply, 0).value.directive.kind != "PIN"
    ensures Interpret(reply).pinToggle.None?
    ensures |Interpret(reply).text| < |reply|
  {
    var m := FirstMatch(reply, 0).value;
    var d := m.directive;
    var w := DirectiveText(d.kind, d.target);
    assert |RemoveFirst(reply, w)| < |reply| by {
      MatchAtSound(reply, m.start);
      RemoveFirstShrinks(reply, w, m.start);
    }
    InterpretMatch(reply, m);
  }
}
