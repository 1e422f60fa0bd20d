/**
 * Programs: fetched in runs of lines from a machine that gives as many as it likes,
 * and framed for the way back the way the machine demands it.
 */
module FocasProgram {
  import opened Common
  import S = FocasSession

  const LF: byte := 10
  const CR: byte := 13
  const BLANK: byte := 32
  const PERCENT: byte := 37
  const TEXT_MAX: nat := 0x4_0000
  const PATH_MAX: nat := 509

  // ------------------------------------------------------------------ upload

  /** One question for lines from a line number on, and its answer. */
  datatype Ask = Ask(line: nat, answer: Result<seq<byte>>)

  function LineFeeds(s: seq<byte>): (n: nat)
    ensures n <= |s|
  {
    if s == [] then 0 else LineFeeds(s[..|s| - 1]) + if s[|s| - 1] == LF then 1 else 0
  }

  method CountLines(text: seq<byte>) returns (lines: nat)
    ensures lines == LineFeeds(text)
  {
    lines := 0;
    for i := 0 to |text|
      invariant lines == LineFeeds(text[..i])
    {
      assert text[..i + 1][..i] == text[..i];
      if text[i] == LF {
        lines := lines + 1;
      }
    }
    assert text[..|text|] == text;
  }

  /** The text an answer contributes. */
  function Text(ask: Ask): seq<byte> {
    if ask.answer.Ok? then CString(ask.answer.value) else []
  }

  function Gathered(asks: seq<Ask>): seq<byte> {
    if asks == [] then [] else Gathered(asks[..|asks| - 1]) + Text(asks[|asks| - 1])
  }

  predicate EndsLine(s: seq<byte>) {
    s != [] && s[|s| - 1] == LF
  }

  /** Each question but the first goes on behind whole lines that the one before it brought. */
  predicate Follows(one: Ask, next: Ask) {
    EndsLine(Text(one)) && next.line == one.line + LineFeeds(Text(one))
  }

  ghost predicate Reading(asks: seq<Ask>) {
    && asks != [] && asks[0].line == 0
    && (forall k :: 0 <= k < |asks| ==> k == 0 || Follows(asks[k - 1], asks[k]))
    && |Gathered(asks[..|asks| - 1])| < TEXT_MAX
  }

  /** What the upload makes of one more answer, and what came before it, when that answer ends it. */
  function Ending(got: seq<byte>, ask: Ask): Result<seq<byte>> {
    if ask.answer.Fail? then (if got == [] then Fail(ask.answer.error) else Ok(got))
    else if Text(ask) == [] then (if got == [] then Fail(NotFound) else Ok(got))
    else if |got| + |Text(ask)| + 1 > TEXT_MAX then Fail(OutOfRange)
    else Ok(got + Text(ask))
  }

  /** What the upload makes of its last answer. */
  function Outcome(asks: seq<Ask>): Result<seq<byte>>
    requires asks != []
  {
    Ending(Gathered(asks[..|asks| - 1]), asks[|asks| - 1])
  }

  /** Nothing more is asked after this answer. */
  predicate Last(asks: seq<Ask>)
    requires asks != []
  {
    !EndsLine(Text(asks[|asks| - 1])) || Outcome(asks).Fail?
  }

  ghost predicate Answered(machine: (seq<Ask>, nat) -> Result<seq<byte>>, before: seq<Ask>, asks: seq<Ask>) {
    forall k :: 0 <= k < |asks| ==> asks[k].answer == machine(before + asks[..k], asks[k].line)
  }

  class Library {
    /** The machine: its answer to a request for lines from a number on, after all earlier requests. */
    const machine: (seq<Ask>, nat) -> Result<seq<byte>>
    var log: seq<Ask>

    constructor (machine: (seq<Ask>, nat) -> Result<seq<byte>>)
      ensures log == [] && this.machine == machine
    {
      this.machine := machine;
      log := [];
    }

    /** Reads run after run of lines until the text ends, and puts the runs together. */
    method Upload() returns (r: Result<seq<byte>>, ghost asks: seq<Ask>)
      modifies this`log
      ensures log == old(log) + asks && Reading(asks) && Last(asks) && Answered(machine, old(log), asks)
      ensures r == Outcome(asks)
    {
      hide Gathered, Reading, Answered, LineFeeds, CString, EndsLine;
      var text: seq<byte> := [];
      var line := 0;
      asks := [];
      Beginning(machine, log);
      while true
        invariant log == old(log) + asks && text == Gathered(asks) && |text| < TEXT_MAX
        invariant Ready(asks, line) && Answered(machine, old(log), asks)
        decreases TEXT_MAX - |text|
      {
        ghost var before := asks;
        var answer := machine(log, line);
        log := log + [Ask(line, answer)];
        asks := before + [Ask(line, answer)];
        AskedNext(before, Ask(line, answer), line);
        AnsweredNext(machine, old(log), before, Ask(line, answer));
        if answer.Fail? {
          NoLine();
          return if text == [] then Fail(answer.error) else Ok(text), asks;
        }
        var chunk := CString(answer.value);
        if |chunk| == 0 {
          NoLine();
          return if text == [] then Fail(NotFound) else Ok(text), asks;
        }
        if |text| + |chunk| + 1 > TEXT_MAX {
          return Fail(OutOfRange), asks;
        }
        text := text + chunk;
        var lines := CountLines(chunk);
        if chunk[|chunk| - 1] != LF {
          NotEnded(chunk);
          return Ok(text), asks;
        }
        Ended(chunk);
        line := line + lines;
      }
    }
  }

  lemma NoLine()
    ensures !EndsLine([])
  {
  }

  lemma NotEnded(s: seq<byte>)
    requires s != [] && s[|s| - 1] != LF
    ensures !EndsLine(s)
  {
  }

  lemma Ended(s: seq<byte>)
    requires s != [] && s[|s| - 1] == LF
    ensures EndsLine(s) && LineFeeds(s) > 0
  {
  }

  ghost predicate Ready(asks: seq<Ask>, line: nat) {
    if asks == [] then line == 0 else
      var one := asks[|asks| - 1];
      && Reading(asks) && EndsLine(Text(one)) && one.answer.Ok?
      && line == one.line + LineFeeds(Text(one)) && |Gathered(asks)| < TEXT_MAX
  }

  lemma Beginning(machine: (seq<Ask>, nat) -> Result<seq<byte>>, before: seq<Ask>)
    ensures Ready([], 0) && Gathered([]) == [] && Answered(machine, before, [])
  {
  }

  lemma GatheredNext(asks: seq<Ask>, ask: Ask)
    ensures Gathered(asks + [ask]) == Gathered(asks) + Text(ask)
    ensures (asks + [ask])[..|asks|] == asks
  {
    assert (asks + [ask])[..|asks|] == asks;
  }

  lemma AskedNext(asks: seq<Ask>, ask: Ask, line: nat)
    requires Ready(asks, line) && ask.line == line && |Gathered(asks)| < TEXT_MAX
    ensures Reading(asks + [ask]) && Gathered(asks + [ask]) == Gathered(asks) + Text(ask)
    ensures (asks + [ask])[..|asks|] == asks
    ensures EndsLine(Text(ask)) && |Gathered(asks)| + |Text(ask)| < TEXT_MAX ==>
              Ready(asks + [ask], line + LineFeeds(Text(ask)))
  {
    hide Gathered, LineFeeds, EndsLine, Text;
    GatheredNext(asks, ask);
    var more := asks + [ask];
    assert Gathered([]) == [] by {
      GatheredNothing();
    }
    forall k | 0 <= k < |more|
      ensures k == 0 || Follows(more[k - 1], more[k])
    {
      if 0 < k < |asks| {
        assert more[k] == asks[k] && Follows(asks[k - 1], asks[k]);
      }
    }
    FailedText(ask);
  }

  lemma GatheredNothing()
    ensures Gathered([]) == []
  {
  }

  lemma FailedText(ask: Ask)
    ensures EndsLine(Text(ask)) ==> ask.answer.Ok?
  {
  }

  lemma AnsweredNext(machine: (seq<Ask>, nat) -> Result<seq<byte>>, before: seq<Ask>, asks: seq<Ask>, ask: Ask)
    requires Answered(machine, before, asks) && ask.answer == machine(before + asks, ask.line)
    ensures Answered(machine, before, asks + [ask])
  {
    var more := asks + [ask];
    forall k | 0 <= k < |more|
      ensures more[k].answer == machine(before + more[..k], more[k].line)
    {
      if k < |asks| {
        assert more[..k] == asks[..k];
      } else {
        assert more[..k] == asks;
      }
    }
  }

  /** The line number grows with every question, whatever is answered. */
  lemma {:induction false} LinesAdvance(asks: seq<Ask>, i: nat, j: nat)
    requires Reading(asks) && i < j < |asks|
    ensures asks[i].line < asks[j].line
    decreases j
  {
    hide LineFeeds, Gathered, Text;
    assert Follows(asks[j - 1], asks[j]);
    Ended(Text(asks[j - 1]));
    if i < j - 1 {
      LinesAdvance(asks, i, j - 1);
    }
  }

  // ---------------------------------------------- a machine that has the text

  /** Position `at` begins line number `line` of the program. */
  predicate LineStart(program: seq<byte>, at: nat, line: nat) {
    at <= |program| && LineFeeds(program[..at]) == line && (at == 0 || program[at - 1] == LF)
  }

  /** The text from `at` to some later line end. */
  ghost predicate WholeLines(program: seq<byte>, at: nat, text: seq<byte>) {
    exists to :: at < to <= |program| && (to == |program| || program[to - 1] == LF) && text == program[at..to]
  }

  /** The answer is one or more whole lines from the one asked for, and past the end nothing or an error. */
  ghost predicate Serves(program: seq<byte>, ask: Ask) {
    forall at: nat :: LineStart(program, at, ask.line) ==>
      if at == |program| then Text(ask) == [] else ask.answer.Ok? && WholeLines(program, at, Text(ask))
  }

  lemma {:induction false} LineFeedsAdd(a: seq<byte>, b: seq<byte>)
    ensures LineFeeds(a + b) == LineFeeds(a) + LineFeeds(b)
  {
    if b == [] {
      assert a + b == a;
    } else {
      var n := |b| - 1;
      assert (a + b)[..|a| + n] == a + b[..n];
      LineFeedsAdd(a, b[..n]);
    }
  }

  /** One served answer moves from one line start to the next, or to the end. */
  lemma ServedStep(program: seq<byte>, at: nat, ask: Ask)
    requires Serves(program, ask) && LineStart(program, at, ask.line)
    ensures at < |program| ==> Text(ask) != []
    ensures at + |Text(ask)| <= |program| && program[..at] + Text(ask) == program[..at + |Text(ask)|]
    ensures EndsLine(Text(ask)) ==> LineStart(program, at + |Text(ask)|, ask.line + LineFeeds(Text(ask)))
    ensures !EndsLine(Text(ask)) ==> at + |Text(ask)| == |program|
  {
    hide LineFeeds, Text, LineStart;
    if at == |program| {
      NoLine();
      assert program[..at] + [] == program[..at];
    } else {
      var to :| at < to <= |program| && (to == |program| || program[to - 1] == LF) && Text(ask) == program[at..to];
      assert program[..at] + program[at..to] == program[..to];
      StepTo(program, at, ask.line, to);
    }
  }

  lemma StepTo(program: seq<byte>, at: nat, line: nat, to: nat)
    requires LineStart(program, at, line) && at < to <= |program|
    ensures EndsLine(program[at..to]) ==> LineStart(program, to, line + LineFeeds(program[at..to]))
    ensures program[to - 1] == LF ==> EndsLine(program[at..to])
  {
    hide LineFeeds;
    assert program[..to] == program[..at] + program[at..to];
    LineFeedsAdd(program[..at], program[at..to]);
    assert program[at..to][to - at - 1] == program[to - 1];
  }

  lemma {:induction false} GatherUpto(program: seq<byte>, asks: seq<Ask>, k: nat)
    requires Reading(asks) && k < |asks| && forall i :: 0 <= i < k ==> Serves(program, asks[i])
    ensures var at := |Gathered(asks[..k])|;
            at <= |program| && Gathered(asks[..k]) == program[..at] && LineStart(program, at, asks[k].line)
  {
    hide Gathered, Text, Serves, Follows, LineFeeds, LineStart;
    if k == 0 {
      GatheredNothing();
      assert asks[..0] == [] && program[..0] == [];
      FirstLine(program);
    } else {
      GatherUpto(program, asks, k - 1);
      var got, one := Gathered(asks[..k - 1]), asks[k - 1];
      assert asks[..k] == asks[..k - 1] + [one];
      GatheredNext(asks[..k - 1], one);
      ServedStep(program, |got|, one);
      assert Follows(one, asks[k]);
      FollowsLine(one, asks[k]);
    }
  }

  lemma FirstLine(program: seq<byte>)
    ensures LineStart(program, 0, 0)
  {
    assert program[..0] == [];
  }

  lemma FollowsLine(one: Ask, next: Ask)
    requires Follows(one, next)
    ensures EndsLine(Text(one)) && next.line == one.line + LineFeeds(Text(one))
  {
  }

  /**
   * From a machine that gives whole lines of a program, however many at a time, the
   * upload is exactly that program; one that does not fit the buffer is refused.
   */
  lemma UploadIsTheText(program: seq<byte>, asks: seq<Ask>)
    requires program != [] && Reading(asks) && Last(asks) && forall i :: 0 <= i < |asks| ==> Serves(program, asks[i])
    ensures |program| < 262144 ==> Outcome(asks) == Ok(program)
    ensures |program| >= 262144 ==> Outcome(asks) == Fail(OutOfRange)
  {
    hide Gathered, Serves, Ending, EndsLine, Follows, LineStart, Text;
    var n := |asks| - 1;
    GatherUpto(program, asks, n);
    EndingIsTheText(program, |Gathered(asks[..n])|, asks[n]);
  }

  /** The last answer completes the text, or the text is too long. */
  lemma EndingIsTheText(program: seq<byte>, at: nat, ask: Ask)
    requires program != [] && at <= |program| && at < TEXT_MAX && Serves(program, ask)
              && LineStart(program, at, ask.line)
    requires !EndsLine(Text(ask)) || Ending(program[..at], ask).Fail?
    ensures Ending(program[..at], ask) == if |program| < TEXT_MAX then Ok(program) else Fail(OutOfRange)
  {
    hide Serves, EndsLine, LineStart, Text, Ending;
    ServedStep(program, at, ask);
    FailedIsEmpty(ask);
    NoLine();
    EndingMeans(program, at, at + |Text(ask)|, ask);
  }

  /** How the upload ends, with what came before and after the last answer as stretches of the program. */
  lemma EndingMeans(program: seq<byte>, at: nat, to: nat, ask: Ask)
    requires at <= to <= |program| && to == at + |Text(ask)| && program[..at] + Text(ask) == program[..to]
    ensures var r := Ending(program[..at], ask);
            if ask.answer.Fail? then r == (if at == 0 then Fail(ask.answer.error) else Ok(program[..at]))
            else if to == at then r == (if at == 0 then Fail(NotFound) else Ok(program[..at]))
            else r == if to + 1 > TEXT_MAX then Fail(OutOfRange) else Ok(program[..to])
    ensures program[..|program|] == program
  {
    hide Text;
  }

  lemma FailedIsEmpty(ask: Ask)
    ensures ask.answer.Fail? ==> Text(ask) == []
  {
  }

  // ------------------------------------------------- a link that breaks half way

  /** A place that begins a line is known by the number of that line. */
  lemma LineStartIsUnique(program: seq<byte>, a: nat, b: nat, line: nat)
    requires LineStart(program, a, line) && LineStart(program, b, line)
    ensures a == b
  {
    if a != b {
      var low, high := if a < b then a else b, if a < b then b else a;
      assert program[..high] == program[..low] + program[low..high];
      hide LineFeeds;
      LineFeedsAdd(program[..low], program[low..high]);
      Ended(program[low..high]);
    }
  }

  /** An answer that served the program, or an error of any kind. */
  ghost predicate ServesOrFails(program: seq<byte>, ask: Ask) {
    ask.answer.Fail? || Serves(program, ask)
  }

  /** All lines of the program lie before this one. */
  predicate BehindTheEnd(program: seq<byte>, line: nat) {
    LineStart(program, |program|, line)
  }

  /**
   * An error behind the first answer counts as the end of the program. So from a
   * machine that serves or fails a success is a stretch of whole lines from the
   * front; it is the whole program exactly when it fits and no error came before its end.
   */
  lemma UploadIsAPrefix(program: seq<byte>, asks: seq<Ask>)
    requires program != [] && Reading(asks) && Last(asks)
    requires forall i :: 0 <= i < |asks| ==> ServesOrFails(program, asks[i])
    ensures Outcome(asks).Ok? ==> Outcome(asks).value <= program
    ensures Outcome(asks).Ok? ==> Outcome(asks).value == program || EndsLine(Outcome(asks).value)
    ensures var last := asks[|asks| - 1];
            Outcome(asks) == Ok(program) <==>
              |program| < 262144 && (last.answer.Ok? || BehindTheEnd(program, last.line))
  {
    hide Gathered, Serves, Ending, EndsLine, LineStart, Text;
    var n := |asks| - 1;
    forall i | 0 <= i < n
      ensures Serves(program, asks[i])
    {
      assert Follows(asks[i], asks[i + 1]);
      FailedText(asks[i]);
    }
    GatherUpto(program, asks, n);
    var at, ask := |Gathered(asks[..n])|, asks[n];
    if ask.answer.Ok? {
      EndingIsTheText(program, at, ask);
    } else {
      FailedIsEmpty(ask);
      assert program[..at] + [] == program[..at];
      EndingMeans(program, at, at, ask);
      PrefixEnds(program, at, ask.line);
      if BehindTheEnd(program, ask.line) {
        LineStartIsUnique(program, at, |program|, ask.line);
      }
    }
  }

  lemma PrefixEnds(program: seq<byte>, at: nat, line: nat)
    requires LineStart(program, at, line)
    ensures at > 0 ==> EndsLine(program[..at])
    ensures at == |program| ==> BehindTheEnd(program, line)
    ensures program[..at] == program ==> at == |program|
  {
    hide LineFeeds;
    assert program[..at] == program ==> |program[..at]| == |program|;
  }

  /** Two lines, and the link breaks between them: the first alone is a success. */
  lemma BrokenLinkCutsProgram(asks: seq<Ask>)
    requires asks == [Ask(0, Ok([65, LF])), Ask(1, Fail(Transport(0x91)))]
    ensures var program: seq<byte> := [65, LF, 66, LF];
            && Reading(asks) && Last(asks) && (forall i :: 0 <= i < |asks| ==> ServesOrFails(program, asks[i]))
            && Outcome(asks) == Ok([65, LF])
  {
    var program: seq<byte> := [65, LF, 66, LF];
    var line: seq<byte> := [65, LF];
    CStringIs(line, line);
    assert LineFeeds(line) == 1 by {
      assert line[..1] == [65] && [65][..0] == [];
      assert LineFeeds([65]) == 0;
    }
    assert asks[..1] == [asks[0]] && [asks[0]][..0] == [];
    assert Gathered(asks[..1]) == [] + line == line;
    hide LineFeeds, Gathered, CString;
    forall at: nat | LineStart(program, at, 0)
      ensures asks[0].answer.Ok? && at == 0 && WholeLines(program, at, Text(asks[0]))
    {
      FirstLine(program);
      LineStartIsUnique(program, at, 0, 0);
      assert program[0..2] == line;
    }
  }

  /** End to end: the text comes back as the machine holds it; when links break, some lines of it from the front. */
  method Fetch(l: Library, ghost program: seq<byte>) returns (r: Result<seq<byte>>)
    requires program != [] && forall log, line :: ServesOrFails(program, Ask(line, l.machine(log, line)))
    modifies l`log
    ensures r.Ok? ==> r.value <= program && (r.value == program || EndsLine(r.value))
    ensures (forall log, line :: Serves(program, Ask(line, l.machine(log, line)))) ==>
              r == if |program| < 262144 then Ok(program) else Fail(OutOfRange)
  {
    hide Serves, Reading, Gathered, Text, Last, Outcome, EndsLine;
    ghost var before := l.log;
    ghost var asks;
    r, asks := l.Upload();
    forall k | 0 <= k < |asks|
      ensures ServesOrFails(program, asks[k])
    {
      assert ServesOrFails(program, Ask(asks[k].line, l.machine(before + asks[..k], asks[k].line)));
      assert asks[k] == Ask(asks[k].line, asks[k].answer);
    }
    UploadIsAPrefix(program, asks);
    if forall log, line :: Serves(program, Ask(line, l.machine(log, line))) {
      forall k | 0 <= k < |asks|
        ensures Serves(program, asks[k])
      {
        assert Serves(program, Ask(asks[k].line, l.machine(before + asks[..k], asks[k].line)));
        assert asks[k] == Ask(asks[k].line, asks[k].answer);
      }
      UploadIsTheText(program, asks);
    }
  }

  // ----------------------------------------------------------------- framing

  predicate Blank(b: byte) {
    b == LF || b == CR || b == BLANK
  }

  /** The first position from i on that holds no blank. */
  function SkipBlanks(s: seq<byte>, i: nat): (j: nat)
    requires i <= |s|
    ensures i <= j <= |s| && (j < |s| ==> !Blank(s[j])) && forall k :: i <= k < j ==> Blank(s[k])
    decreases |s| - i
  {
    if i < |s| && Blank(s[i]) then SkipBlanks(s, i + 1) else i
  }

  /** The length of s without its trailing blanks. */
  function Trimmed(s: seq<byte>): (n: nat)
    ensures n <= |s| && (n > 0 ==> !Blank(s[n - 1])) && forall k :: n <= k < |s| ==> Blank(s[k])
  {
    if s != [] && Blank(s[|s| - 1]) then Trimmed(s[..|s| - 1]) else |s|
  }

  lemma {:induction false} TrimmedIs(s: seq<byte>, n: nat)
    requires n <= |s| && (n > 0 ==> !Blank(s[n - 1])) && forall k :: n <= k < |s| ==> Blank(s[k])
    ensures Trimmed(s) == n
  {
    if n < |s| {
      TrimmedIs(s[..|s| - 1], n);
    }
  }

  /** The first line that is not blank begins with O and a digit. */
  predicate HasNumberLine(s: seq<byte>) {
    var i := SkipBlanks(s, 0);
    i + 1 < |s| && (s[i] == 'O' as byte || s[i] == 'o' as byte) && '0' as byte <= s[i + 1] <= '9' as byte
  }

  predicate HasTail(s: seq<byte>) {
    Trimmed(s) > 0 && s[Trimmed(s) - 1] == PERCENT
  }

  /** The text, some blanks or none behind it, ends in a percent sign. */
  lemma HasTailExactly(s: seq<byte>)
    ensures HasTail(s) <==>
              exists k :: 0 <= k < |s| && s[k] == 37 && forall i :: k < i < |s| ==> s[i] in {10, 13, 32}
  {
    if HasTail(s) {
      assert s[Trimmed(s) - 1] == 37;
    }
    if k :| 0 <= k < |s| && s[k] == 37 && forall i :: k < i < |s| ==> s[i] in {10, 13, 32} {
      assert !Blank(s[k]) && forall i :: k < i < |s| ==> Blank(s[i]);
    }
  }

  /** The line feed in front, unless there is one. */
  function Lead(program: seq<byte>): seq<byte> {
    if program != [] && program[0] == LF then [] else [LF]
  }

  /** The percent sign on its own line, unless the text ends in one. */
  function Tail(program: seq<byte>): seq<byte> {
    if HasTail(program) then [] else
    if program != [] && program[|program| - 1] != LF then [LF, PERCENT] else [PERCENT]
  }

  function Framed(program: seq<byte>): seq<byte> {
    Lead(program) + program + Tail(program)
  }

  method CheckNumberLine(program: seq<byte>) returns (has: bool)
    ensures has <==> HasNumberLine(program)
  {
    var i := 0;
    while i < |program| && Blank(program[i])
      invariant i <= |program| && SkipBlanks(program, i) == SkipBlanks(program, 0)
    {
      i := i + 1;
    }
    if i >= |program| || (program[i] != 'O' as byte && program[i] != 'o' as byte) {
      return false;
    }
    i := i + 1;
    if i >= |program| || program[i] < '0' as byte || program[i] > '9' as byte {
      return false;
    }
    return true;
  }

  /** Whether the text, blanks aside, ends in a percent sign. */
  method CheckTail(program: seq<byte>) returns (has: bool)
    ensures has <==> HasTail(program)
  {
    var end := |program|;
    while end > 0 && Blank(program[end - 1])
      invariant 0 <= end <= |program| && forall k :: end <= k < |program| ==> Blank(program[k])
    {
      end := end - 1;
    }
    TrimmedIs(program, end);
    hide Trimmed;
    return end > 0 && program[end - 1] == PERCENT;
  }

  /** Puts the closing percent sign on its own line, and the NUL. */
  method PutTail(program: seq<byte>, out: array<byte>, used: nat, hasTail: bool) returns (at: nat)
    requires program != [] && hasTail == HasTail(program)
    requires used == |Lead(program)| + |program| && used + 3 <= out.Length && out[..used] == Lead(program) + program
    modifies out
    ensures at == |Framed(program)| && at < out.Length && out[..at] == Framed(program) && out[at] == 0
  {
    hide HasTail, Lead;
    at := used;
    ghost var text := out[..used];
    assert out[at - 1] == text[at - 1];
    if !hasTail {
      if out[at - 1] != LF {
        out[at] := LF;
        at := at + 1;
      }
      out[at] := PERCENT;
      at := at + 1;
    }
    assert out[..at] == text + Tail(program);
    out[at] := 0;
  }

  /** Fills `out` with the framed text and a NUL behind it. */
  method ProgramFrame(program: seq<byte>, out: array<byte>) returns (r: Result<nat>)
    modifies out
    ensures !HasNumberLine(program) ==> r == Fail(InvalidArg)
    ensures HasNumberLine(program) && |Lead(program)| + |program| + 3 > out.Length ==> r == Fail(OutOfRange)
    ensures HasNumberLine(program) && |Lead(program)| + |program| + 3 <= out.Length ==>
              r == Ok(|Framed(program)|) && |Framed(program)| < out.Length
    ensures r.Ok? ==> out[..r.value] == Framed(program) && out[r.value] == 0
  {
    hide HasNumberLine, HasTail, Framed;
    var has := CheckNumberLine(program);
    if !has {
      return Fail(InvalidArg);
    }
    NumberLineIsText(program);
    var hasTail := CheckTail(program);
    var at := 0;
    if program[0] != LF {
      if out.Length < 2 {
        return Fail(OutOfRange);
      }
      out[at] := LF;
      at := 1;
    }
    if at + |program| + 3 > out.Length {
      return Fail(OutOfRange);
    }
    ghost var was := out[..];
    assert was[..at] == Lead(program);
    WriteAt(out, at, program);
    SpliceFront(was, at, program);
    assert out[..at + |program|] == Lead(program) + program;
    at := PutTail(program, out, at + |program|, hasTail);
    return Ok(at);
  }

  lemma SpliceFront(s: seq<byte>, at: nat, part: seq<byte>)
    requires at + |part| <= |s|
    ensures Splice(s, at, part)[..at + |part|] == s[..at] + part
  {
  }

  lemma NumberLineIsText(program: seq<byte>)
    requires HasNumberLine(program)
    ensures program != []
  {
  }

  /** A buffer of the text's length and four more always suffices. */
  method FrameProgram(program: seq<byte>) returns (r: Result<seq<byte>>)
    ensures r == if HasNumberLine(program) then Ok(Framed(program)) else Fail(InvalidArg)
  {
    hide HasNumberLine, Tail;
    var framed := new byte[|program| + 4];
    var n := ProgramFrame(program, framed);
    if n.Fail? {
      return Fail(n.error);
    }
    return Ok(framed[..n.value]);
  }

  /** What the machine asks of a program: a line feed first, a percent sign last, the text unchanged between. */
  lemma FrameShape(program: seq<byte>)
    requires program != []
    ensures Framed(program)[0] == 10 && HasTail(Framed(program))
    ensures Framed(program)[|Lead(program)|..|Lead(program)| + |program|] == program
    ensures |Framed(program)| <= |program| + 3
  {
    hide Trimmed, Blank;
    var lead, tail := Lead(program), Tail(program);
    if HasTail(program) {
      TailKept(program, lead);
      assert Framed(program) == lead + program;
    } else {
      PercentLast(lead + program + tail);
    }
  }

  lemma TailKept(program: seq<byte>, lead: seq<byte>)
    requires HasTail(program)
    ensures HasTail(lead + program)
  {
    hide Trimmed;
    var s := lead + program;
    assert forall k :: 0 <= k < |program| ==> s[|lead| + k] == program[k];
    forall k | |lead| + Trimmed(program) <= k < |s|
      ensures Blank(s[k])
    {
      assert s[k] == program[k - |lead|];
    }
    TrimmedIs(s, |lead| + Trimmed(program));
  }

  lemma PercentLast(s: seq<byte>)
    requires s != [] && s[|s| - 1] == PERCENT
    ensures HasTail(s)
  {
    TrimmedIs(s, |s|);
  }

  /** Framing a framed program changes nothing, and it is accepted again. */
  lemma FrameOnce(program: seq<byte>)
    requires HasNumberLine(program)
    ensures HasNumberLine(Framed(program)) && Framed(Framed(program)) == Framed(program)
  {
    hide HasTail, HasNumberLine, Lead, Tail;
    NumberLineIsText(program);
    FrameShape(program);
    LeadIs(program);
    NumberLineKept(program, Lead(program), Tail(program));
    AlreadyFramed(Framed(program));
  }

  lemma LeadIs(program: seq<byte>)
    ensures Lead(program) == [] || Lead(program) == [LF]
  {
  }

  lemma AlreadyFramed(s: seq<byte>)
    requires s != [] && s[0] == LF && HasTail(s)
    ensures Framed(s) == s
  {
    hide HasTail;
    assert Lead(s) == [] && Tail(s) == [];
  }

  lemma {:induction false} SkipIs(s: seq<byte>, i: nat, j: nat)
    requires i <= j <= |s| && (j < |s| ==> !Blank(s[j])) && forall k :: i <= k < j ==> Blank(s[k])
    ensures SkipBlanks(s, i) == j
    decreases j - i
  {
    if i < j {
      SkipIs(s, i + 1, j);
    }
  }

  lemma NumberLineKept(program: seq<byte>, lead: seq<byte>, tail: seq<byte>)
    requires HasNumberLine(program) && (lead == [] || lead == [LF])
    ensures HasNumberLine(lead + program + tail)
  {
    var s := lead + program + tail;
    var i := SkipBlanks(program, 0);
    hide SkipBlanks;
    assert forall k :: 0 <= k < |program| ==> s[|lead| + k] == program[k];
    forall k | 0 <= k < |lead| + i
      ensures Blank(s[k])
    {
      if k >= |lead| {
        assert s[k] == program[k - |lead|];
      }
    }
    SkipIs(s, 0, |lead| + i);
  }

  // ---------------------------------------------------------------- download

  predicate AllSpace(s: seq<byte>) {
    forall i :: 0 <= i < |s| ==> s[i] == 32 || 9 <= s[i] <= 13
  }

  function LastSlash(s: seq<byte>): (k: int)
    ensures -1 <= k < |s| && (k >= 0 ==> s[k] == '/' as byte) && forall i :: k < i < |s| ==> s[i] != '/' as byte
  {
    if s == [] then -1 else if s[|s| - 1] == '/' as byte then |s| - 1 else LastSlash(s[..|s| - 1])
  }

  function Cut(s: seq<byte>, size: nat): seq<byte>
    requires size > 0
  {
    if |s| >= size then s[..size - 1] else s
  }

  /** The folder of a path, as the start frame wants it; a blank one is none. */
  function DirPart(name: seq<byte>): (dir: seq<byte>)
    ensures |dir| < PATH_MAX && dir <= name
  {
    if AllSpace(name) then [] else
    var k := LastSlash(name);
    var dir := if k < 0 || k == |name| - 1 then Cut(name, PATH_MAX) else Cut(name[..k + 1], PATH_MAX);
    if AllSpace(dir) then [] else dir
  }

  /** The name up to and with its last slash, or all of it if it has none; at most 508 bytes, and not only blanks. */
  ghost predicate IsFolder(dir: seq<byte>, name: seq<byte>) {
    && (forall k :: 0 <= k < |name| && name[k] == 0x2F && NoSlash(name[k + 1..]) ==> IsFront(dir, name[..k + 1]))
    && (NoSlash(name) ==> IsFront(dir, name))
  }

  predicate NoSlash(s: seq<byte>) {
    forall i :: 0 <= i < |s| ==> s[i] != 0x2F
  }

  predicate IsFront(dir: seq<byte>, s: seq<byte>) {
    var front := if |s| > 508 then s[..508] else s;
    dir == if forall i :: 0 <= i < |front| ==> front[i] in {9, 10, 11, 12, 13, 32} then [] else front
  }

  lemma DirPartIsFolder(name: seq<byte>)
    ensures IsFolder(DirPart(name), name)
  {
    hide DirPart, IsFront, NoSlash;
    if NoSlash(name) {
      NoFolder(name);
    }
    forall k | 0 <= k < |name| && name[k] == 0x2F && NoSlash(name[k + 1..])
      ensures IsFront(DirPart(name), name[..k + 1])
    {
      FolderUpto(name, k);
    }
  }

  lemma NoFolder(name: seq<byte>)
    requires NoSlash(name)
    ensures IsFront(DirPart(name), name)
  {
    assert LastSlash(name) == -1;
    hide LastSlash;
    CutIsFront(name);
  }

  lemma FolderUpto(name: seq<byte>, k: nat)
    requires k < |name| && name[k] == 0x2F && NoSlash(name[k + 1..])
    ensures IsFront(DirPart(name), name[..k + 1])
  {
    assert forall i :: k < i < |name| ==> name[i] == name[k + 1..][i - k - 1];
    assert LastSlash(name) == k;
    hide LastSlash;
    assert k == |name| - 1 ==> name[..k + 1] == name;
    CutIsFront(name[..k + 1]);
  }

  lemma CutIsFront(s: seq<byte>)
    ensures var dir := Cut(s, PATH_MAX); IsFront(if AllSpace(dir) then [] else dir, s)
    ensures AllSpace(s) ==> AllSpace(Cut(s, PATH_MAX))
  {
  }

  /**
   * Sends a program over a session. A successful download put exactly the framed
   * text, and for other data the text as it is, on the transfer channel.
   */
  method ProgramDownload(s: S.Session, kind: int, name: seq<byte>, program: seq<byte>) returns (r: Result<()>)
    requires s.Valid()
    modifies s
    ensures s.Valid() && old(s.log) <= s.log
    ensures program == [] || kind < 0 || kind > 255 || (kind == 0 && !HasNumberLine(program)) ==>
              r == Fail(InvalidArg) && s.log == old(s.log)
    ensures r.Ok? ==>
              var text := if kind == 0 then Framed(program) else program;
              s.session && S.Delivered(s.wire, s.log, |old(s.log)|, s.transfer.value, text)
    ensures r.Ok? ==> exists dir: seq<byte>, from: nat ::
              |old(s.log)| <= from && IsFolder(dir, name) && S.Started(s.log, from, s.transfer.value, kind, dir)
  {
    hide S.Sound, S.Delivered, S.Started, HasNumberLine, Framed, DirPart, IsFolder;
    DirPartIsFolder(name);
    if program == [] || kind < 0 || kind > 255 {
      return Fail(InvalidArg);
    }
    var data := program;
    if kind == 0 {
      var framed := FrameProgram(program);
      if framed.Fail? {
        return Fail(framed.error);
      }
      data := framed.value;
    }
    r := s.Download(kind, DirPart(name), data);
  }
}
