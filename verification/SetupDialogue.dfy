/** The first-time setup dialogue over a script of terminal inputs: what is shown, what is asked, and
    when a candidate configuration is written. */
module SetupDialogue {
  import opened Text
  import opened BrokerAddress

  /** One read from the terminal; the end of the script is the end of input. */
  datatype Input = Line(text: string) | ReadError

  datatype Answers = Answers(host: string, port: nat, username: string, password: string)

  datatype Outcome =
    | NoOutputPath | NotTerminal | EndedEarly(eof: bool) | Declined | NotEncoded | Written | WriteFailed

  /** What the terminal shows: the prompts, the complaints, and the summary with its variable parts. */
  datatype Shown =
    | HostPrompt
    | PortPrompt
    | UsernamePrompt
    | PasswordPrompt
    | WarningPrompt
    | ConfirmPrompt
    | HostComplaint(error: HostError)
    | PortComplaint
    | Summary(broker: string, username: string, password: string)

  predicate Affirmative(value: string)
  {
    Lower(TrimSpace(value)) in ["y", "yes"]
  }

  function SummaryOf(a: Answers): Shown
  {
    Summary(BrokerURI(a.host, a.port),
            if a.username == "" then "not configured" else a.username,
            if a.password == "" then "not configured" else "configured")
  }

  // ------------------------------------------------------------- specification

  /** How host and port answers are judged. */
  datatype Parser = Parser(host: string -> Result<string, HostError>, port: string -> Option<nat>)

  ghost predicate IsSetupParser(parser: Parser, isIP: string -> bool)
  {
    forall v :: parser.host(v) == Normalized(v, isIP) && parser.port(v) == PortOf(TrimSpace(v))
  }

  /** The terminal: everything shown so far and the inputs not yet read. */
  datatype Session = Session(shown: seq<Shown>, inputs: seq<Input>)
  {
    function Say(text: Shown): Session { this.(shown := shown + [text]) }
  }

  /** What a question got: an answer or none, and the terminal afterwards. */
  datatype Reply<+T> = Reply(answer: Option<T>, after: Session)

  /** Shows the prompt, then reads one line. */
  function AskLine(prompt: Shown, s: Session): (r: Reply<string>)
    ensures |r.after.inputs| <= |s.inputs|
    ensures r.answer.Some? ==> s.inputs != [] && s.inputs[0] == Line(r.answer.value) && r.after.inputs == s.inputs[1..]
  {
    var t := s.Say(prompt);
    if t.inputs == [] || t.inputs[0].ReadError? then Reply(None, t)
    else Reply(Some(t.inputs[0].text), t.(inputs := t.inputs[1..]))
  }

  /** Asks until the answer is accepted or input ends. */
  function AskHost(s: Session, parser: Parser): (r: Reply<string>)
    ensures |r.after.inputs| <= |s.inputs|
    decreases |s.inputs|
  {
    var line := AskLine(HostPrompt, s);
    if line.answer.None? then Reply(None, line.after)
    else
      match parser.host(line.answer.value)
      case Ok(host) => Reply(Some(host), line.after)
      case Err(e) => AskHost(line.after.Say(HostComplaint(e)), parser)
  }

  function AskPort(s: Session, parser: Parser): (r: Reply<nat>)
    ensures |r.after.inputs| <= |s.inputs|
    decreases |s.inputs|
  {
    var line := AskLine(PortPrompt, s);
    if line.answer.None? then Reply(None, line.after)
    else
      match parser.port(line.answer.value)
      case Some(port) => Reply(Some(port), line.after)
      case None => AskPort(line.after.Say(PortComplaint), parser)
  }

  datatype Opening = Opening(host: string, port: nat, username: string)

  /** The questions before the secret. */
  function Open(s: Session, parser: Parser): Reply<Opening>
  {
    var host := AskHost(s, parser);
    if host.answer.None? then Reply(None, host.after)
    else
      var port := AskPort(host.after, parser);
      if port.answer.None? then Reply(None, port.after)
      else
        var username := AskLine(UsernamePrompt, port.after);
        if username.answer.None? then Reply(None, username.after)
        else Reply(Some(Opening(host.answer.value, port.answer.value, username.answer.value)), username.after)
  }

  /** The end of a dialogue: the answers to write, or a refusal, or neither when input ended. */
  datatype Verdict = Write(answers: Answers) | Refused | NoMoreInput

  datatype Report = Report(verdict: Verdict, after: Session)

  /** The questions after the secret. */
  function Close(a: Answers, s: Session): Report
  {
    if a.password != "" && a.username == "" then
      var warned := AskLine(WarningPrompt, s);
      if warned.answer.None? then Report(NoMoreInput, warned.after)
      else if !Affirmative(warned.answer.value) then Report(Refused, warned.after)
      else Confirm(a, warned.after)
    else Confirm(a, s)
  }

  function Confirm(a: Answers, s: Session): Report
  {
    var confirmed := AskLine(ConfirmPrompt, s.Say(SummaryOf(a)));
    if confirmed.answer.None? then Report(NoMoreInput, confirmed.after)
    else Report(if Affirmative(confirmed.answer.value) then Write(a) else Refused, confirmed.after)
  }

  /** The whole dialogue. */
  function Dialogue(s: Session, parser: Parser): Report
  {
    var opening := Open(s, parser);
    if opening.answer.None? then Report(NoMoreInput, opening.after)
    else
      var secret := AskLine(PasswordPrompt, opening.after);
      if secret.answer.None? then Report(NoMoreInput, secret.after)
      else
        var o := opening.answer.value;
        Close(Answers(o.host, o.port, o.username, secret.answer.value), secret.after)
  }

  // ------------------------------------------------------------------- program

  class Runner {
    const parser: Parser
    /** Whether a configuration can be serialised and reads back with a broker. */
    const encodes: Answers -> bool
    var session: Session
    /** The answers whose configuration was handed to the exclusive writer, each with its success. */
    var writes: seq<(Answers, bool)>

    constructor (inputs: seq<Input>, parser: Parser, encodes: Answers -> bool)
      ensures session == Session([], inputs) && writes == [] && this.parser == parser && this.encodes == encodes
    {
      this.session, this.parser, this.encodes, writes := Session([], inputs), parser, encodes, [];
    }

    /** ReadLine and, apart from the echo, ReadSecret. */
    method Read(prompt: Shown) returns (line: Option<string>)
      modifies `session
      ensures Reply(line, session) == AskLine(prompt, old(session))
    {
      session := session.Say(prompt);
      if session.inputs == [] || session.inputs[0].ReadError? {
        return None;
      }
      line := Some(session.inputs[0].text);
      session := session.(inputs := session.inputs[1..]);
    }

    method PromptHost() returns (host: Option<string>)
      modifies `session
      ensures Reply(host, session) == AskHost(old(session), parser)
    {
      while true
        invariant AskHost(session, parser) == AskHost(old(session), parser)
        decreases |session.inputs|
      {
        var value := Read(HostPrompt);
        if value.None? {
          return None;
        }
        var r := parser.host(value.value);
        if r.Ok? {
          return Some(r.value);
        }
        session := session.Say(HostComplaint(r.error));
      }
    }

    method PromptPort() returns (port: Option<nat>)
      modifies `session
      ensures Reply(port, session) == AskPort(old(session), parser)
    {
      while true
        invariant AskPort(session, parser) == AskPort(old(session), parser)
        decreases |session.inputs|
      {
        var value := Read(PortPrompt);
        if value.None? {
          return None;
        }
        port := parser.port(value.value);
        if port.Some? {
          return;
        }
        session := session.Say(PortComplaint);
      }
    }

    method WriteExclusive(a: Answers) returns (ok: bool)
      modifies `writes
      ensures writes == old(writes) + [(a, ok)]
    {
      ok := *;
      writes := writes + [(a, ok)];
    }

    /** The outcome of a dialogue that ends in this way, and what has been handed to the writer. */
    predicate Means(outcome: Outcome, r: Report, written: seq<(Answers, bool)>)
    {
      match r.verdict
      case Write(a) =>
        if encodes(a) then
          && (outcome == Written || outcome == WriteFailed)
          && written == [(a, outcome == Written)]
        else outcome == NotEncoded && written == []
      case Refused => outcome == Declined && written == []
      case NoMoreInput => outcome == EndedEarly(r.after.inputs == []) && written == []
    }

    /** inputError: the end of input counts as a cancellation. */
    method InputError() returns (outcome: Outcome)
      ensures outcome == EndedEarly(session.inputs == [])
    {
      return EndedEarly(session.inputs == []);
    }

    /** Runs the dialogue on any script; it ends, and what is shown and written is the dialogue's. */
    method Run(outputPath: string, isTerminal: bool) returns (outcome: Outcome)
      modifies this
      ensures outputPath == "" || !isTerminal ==>
                && session == old(session) && writes == old(writes)
                && outcome == if outputPath == "" then NoOutputPath else NotTerminal
      ensures outputPath != "" && isTerminal ==>
                var r := Dialogue(old(session), parser);
                && session == r.after && old(writes) <= writes
                && Means(outcome, r, writes[|old(writes)|..])
    {
      if outputPath == "" {
        return NoOutputPath;
      }
      if !isTerminal {
        return NotTerminal;
      }
      var host := PromptHost();
      if host.None? {
        outcome := InputError();
        return;
      }
      var port := PromptPort();
      if port.None? {
        outcome := InputError();
        return;
      }
      var username := Read(UsernamePrompt);
      if username.None? {
        outcome := InputError();
        return;
      }
      var password := Read(PasswordPrompt);
      if password.None? {
        outcome := InputError();
        return;
      }
      outcome := Finish(Answers(host.value, port.value, username.value, password.value));
    }

    method Finish(a: Answers) returns (outcome: Outcome)
      modifies this
      ensures var r := Close(a, old(session));
              && session == r.after && old(writes) <= writes
              && Means(outcome, r, writes[|old(writes)|..])
    {
      if a.password != "" && a.username == "" {
        var answer := Read(WarningPrompt);
        if answer.None? {
          outcome := InputError();
          return;
        }
        if !Affirmative(answer.value) {
          return Declined;
        }
      }
      session := session.Say(SummaryOf(a));
      var confirmation := Read(ConfirmPrompt);
      if confirmation.None? {
        outcome := InputError();
        return;
      }
      if !Affirmative(confirmation.value) {
        return Declined;
      }
      if !encodes(a) {
        return NotEncoded;
      }
      var ok := WriteExclusive(a);
      return if ok then Written else WriteFailed;
    }
  }

  // ------------------------------------------------------------------ properties

  /** `y` or `yes` in any letter case. */
  ghost predicate IsYes(word: string)
  {
    || (|word| == 1 && IsLetter(word[0], 'y', 'Y'))
    || (|word| == 3 && IsLetter(word[0], 'y', 'Y') && IsLetter(word[1], 'e', 'E') && IsLetter(word[2], 's', 'S'))
  }

  predicate IsLetter(c: char, lower: char, upper: char) { c == lower || c == upper }

  /** The line is such a word between white space. */
  ghost predicate SaysYes(line: string)
  {
    exists before, word, after | AllSpaces(before) && AllSpaces(after) && IsYes(word) :: line == before + (word + after)
  }

  lemma AffirmativeExactly(line: string)
    ensures Affirmative(line) <==> SaysYes(line)
  {
    if Affirmative(line) {
      var before := TrimLeftSplits(line);
      var after := TrimRightSplits(TrimLeft(line));
      YesWord(TrimSpace(line));
      assert line == before + (TrimSpace(line) + after);
    }
    if SaysYes(line) {
      var before, word, after :|
        AllSpaces(before) && AllSpaces(after) && IsYes(word) && line == before + (word + after);
      YesWord(word);
      assert (word + after)[0] == word[0];
      TrimLeftDrops(before, word + after);
      TrimRightDrops(word, after);
    }
  }

  lemma YesLetter(c: char)
    ensures LowerChar(c) == 'y' <==> IsLetter(c, 'y', 'Y')
    ensures LowerChar(c) == 'e' <==> IsLetter(c, 'e', 'E')
    ensures LowerChar(c) == 's' <==> IsLetter(c, 's', 'S')
    ensures IsLetter(c, 'y', 'Y') || IsLetter(c, 's', 'S') ==> !IsSpace(c)
  {}

  lemma LowerOne(word: string)
    requires |word| == 1
    ensures Lower(word) == "y" <==> LowerChar(word[0]) == 'y'
  {
    assert Lower(word) == [LowerChar(word[0])];
  }

  lemma LowerThree(word: string)
    requires |word| == 3
    ensures Lower(word) == "yes"
       <==> LowerChar(word[0]) == 'y' && LowerChar(word[1]) == 'e' && LowerChar(word[2]) == 's'
  {
    assert Lower(word) == [LowerChar(word[0]), LowerChar(word[1]), LowerChar(word[2])];
  }

  lemma YesWord(word: string)
    ensures Lower(word) == "y" || Lower(word) == "yes" <==> IsYes(word)
    ensures IsYes(word) ==> !IsSpace(word[0]) && !IsSpace(word[|word| - 1])
  {
    if |word| == 1 {
      LowerOne(word);
      YesLetter(word[0]);
    } else if |word| == 3 {
      LowerThree(word);
      YesLetter(word[0]);
      YesLetter(word[1]);
      YesLetter(word[2]);
    }
  }

  /** Writing was agreed to by the last inputs read: a final yes, and before it a yes to the warning if a
      password came without a username. */
  ghost predicate Consented(a: Answers, before: seq<Input>, after: seq<Input>)
  {
    if a.password != "" && a.username == "" then
      exists warned, consent | SaysYes(warned) && SaysYes(consent) ::
        before == [Line(warned), Line(consent)] + after
    else
      exists consent | SaysYes(consent) :: before == [Line(consent)] + after
  }

  lemma CloseNeedsConsent(a: Answers, s: Session)
    requires Close(a, s).verdict.Write?
    ensures Close(a, s).verdict.answers == a && Consented(a, s.inputs, Close(a, s).after.inputs)
  {
    var i := s.inputs;
    AffirmativeExactly(i[0].text);
    if a.password != "" && a.username == "" {
      AffirmativeExactly(i[1].text);
      assert i == [Line(i[0].text), Line(i[1].text)] + i[2..];
    } else {
      assert i == [Line(i[0].text)] + i[1..];
    }
  }

  /** CONSENT. A configuration is written only after consent, right after the username and the
      password that are written; host and port were accepted. */
  lemma WritingNeedsConsent(s: Session, parser: Parser, isIP: string -> bool)
    requires IPText(isIP) && IsSetupParser(parser, isIP) && Dialogue(s, parser).verdict.Write?
    ensures var a := Dialogue(s, parser).verdict.answers;
            var afterPort := AskPort(AskHost(s, parser).after, parser).after.inputs;
            && AcceptedHost(a.host, isIP) && 1 <= a.port <= 65535
            && |afterPort| >= 2 && afterPort[0] == Line(a.username) && afterPort[1] == Line(a.password)
            && Consented(a, afterPort[2..], Dialogue(s, parser).after.inputs)
  {
    HostAnswerAccepted(s, parser, isIP);
    PortAnswerInRange(AskHost(s, parser).after, parser, isIP);
    OpenThenClose(s, parser);
  }

  lemma OpenThenClose(s: Session, parser: Parser)
    requires Dialogue(s, parser).verdict.Write?
    ensures var a := Dialogue(s, parser).verdict.answers;
            var host, port := AskHost(s, parser), AskPort(AskHost(s, parser).after, parser);
            var afterPort := port.after.inputs;
            && host.answer == Some(a.host) && port.answer == Some(a.port)
            && |afterPort| >= 2 && afterPort[0] == Line(a.username) && afterPort[1] == Line(a.password)
            && Consented(a, afterPort[2..], Dialogue(s, parser).after.inputs)
  {
    var opening := Open(s, parser);
    var secret := AskLine(PasswordPrompt, opening.after);
    var o := opening.answer.value;
    var a := Answers(o.host, o.port, o.username, secret.answer.value);
    CloseNeedsConsent(a, secret.after);
    var afterPort := AskPort(AskHost(s, parser).after, parser).after.inputs;
    assert secret.after.inputs == afterPort[1..][1..] == afterPort[2..];
  }

  lemma {:induction false} HostAnswerAccepted(s: Session, parser: Parser, isIP: string -> bool)
    requires IPText(isIP) && IsSetupParser(parser, isIP) && AskHost(s, parser).answer.Some?
    ensures AcceptedHost(AskHost(s, parser).answer.value, isIP)
    decreases |s.inputs|
  {
    var line := AskLine(HostPrompt, s);
    match parser.host(line.answer.value)
    case Ok(host) => NormalizedExactly(line.answer.value, isIP, host);
    case Err(e) => HostAnswerAccepted(line.after.Say(HostComplaint(e)), parser, isIP);
  }

  lemma {:induction false} PortAnswerInRange(s: Session, parser: Parser, isIP: string -> bool)
    requires IsSetupParser(parser, isIP) && AskPort(s, parser).answer.Some?
    ensures 1 <= AskPort(s, parser).answer.value <= 65535
    decreases |s.inputs|
  {
    var line := AskLine(PortPrompt, s);
    if parser.port(line.answer.value).None? {
      PortAnswerInRange(line.after.Say(PortComplaint), parser, isIP);
    }
  }

  // ------------------------------------------------- what the inputs decide

  function HostOf(parser: Parser): string -> Option<string>
  {
    text => if parser.host(text).Ok? then Some(parser.host(text).value) else None
  }

  /** Line n is the first one that is accepted, as v, and all before it are lines. */
  ghost predicate AcceptsAt<T>(inputs: seq<Input>, n: nat, accepts: string -> Option<T>, v: T)
  {
    && n < |inputs| && inputs[n].Line? && accepts(inputs[n].text) == Some(v)
    && forall i | 0 <= i < n :: inputs[i].Line? && accepts(inputs[i].text).None?
  }

  /** The first accepted line gives v and leaves the rest. */
  ghost predicate Accepts<T>(inputs: seq<Input>, accepts: string -> Option<T>, v: T, rest: seq<Input>)
  {
    exists n: nat :: AcceptsAt(inputs, n, accepts, v) && rest == inputs[n + 1..]
  }

  lemma AcceptsFirst<T>(inputs: seq<Input>, accepts: string -> Option<T>, v: T, rest: seq<Input>)
    requires inputs != [] && inputs[0].Line? && accepts(inputs[0].text).Some?
    ensures Accepts(inputs, accepts, v, rest) <==> accepts(inputs[0].text) == Some(v) && rest == inputs[1..]
  {
    if accepts(inputs[0].text) == Some(v) && rest == inputs[1..] {
      assert AcceptsAt(inputs, 0, accepts, v);
    }
  }

  lemma AcceptsLater<T>(inputs: seq<Input>, accepts: string -> Option<T>, v: T, rest: seq<Input>)
    requires inputs != [] && inputs[0].Line? && accepts(inputs[0].text).None?
    ensures Accepts(inputs, accepts, v, rest) <==> Accepts(inputs[1..], accepts, v, rest)
  {
    if Accepts(inputs, accepts, v, rest) {
      var n: nat :| AcceptsAt(inputs, n, accepts, v) && rest == inputs[n + 1..];
      assert AcceptsAt(inputs[1..], n - 1, accepts, v) && inputs[1..][n..] == inputs[n + 1..];
    }
    if Accepts(inputs[1..], accepts, v, rest) {
      var n: nat :| AcceptsAt(inputs[1..], n, accepts, v) && rest == inputs[1..][n + 1..];
      forall i | 0 <= i < n + 1 ensures inputs[i].Line? && accepts(inputs[i].text).None? {
        assert i > 0 ==> inputs[i] == inputs[1..][i - 1];
      }
      assert AcceptsAt(inputs, n + 1, accepts, v) && inputs[1..][n + 1..] == inputs[n + 2..];
    }
  }

  lemma {:induction false} HostExactly(s: Session, parser: Parser, host: string, rest: seq<Input>)
    ensures AskHost(s, parser).answer == Some(host) && AskHost(s, parser).after.inputs == rest
       <==> Accepts(s.inputs, HostOf(parser), host, rest)
    decreases |s.inputs|
  {
    var line := AskLine(HostPrompt, s);
    if line.answer.Some? {
      match parser.host(line.answer.value)
      case Ok(_) => AcceptsFirst(s.inputs, HostOf(parser), host, rest);
      case Err(e) =>
        HostExactly(line.after.Say(HostComplaint(e)), parser, host, rest);
        AcceptsLater(s.inputs, HostOf(parser), host, rest);
    }
  }

  lemma {:induction false} PortExactly(s: Session, parser: Parser, port: nat, rest: seq<Input>)
    ensures AskPort(s, parser).answer == Some(port) && AskPort(s, parser).after.inputs == rest
       <==> Accepts(s.inputs, parser.port, port, rest)
    decreases |s.inputs|
  {
    var line := AskLine(PortPrompt, s);
    if line.answer.Some? {
      if parser.port(line.answer.value).Some? {
        AcceptsFirst(s.inputs, parser.port, port, rest);
      } else {
        PortExactly(line.after.Say(PortComplaint), parser, port, rest);
        AcceptsLater(s.inputs, parser.port, port, rest);
      }
    }
  }

  /** The inputs before the last questions: the first accepted host, the first accepted port, the username
      and the password; the rest is left. */
  ghost predicate Gives(inputs: seq<Input>, parser: Parser, a: Answers, rest: seq<Input>)
  {
    exists i, j | Accepts(inputs, HostOf(parser), a.host, i) && Accepts(i, parser.port, a.port, j) ::
      |j| >= 2 && j[0] == Line(a.username) && j[1] == Line(a.password) && rest == j[2..]
  }

  /** The questions before the last ones got these answers and left the rest. */
  ghost predicate Got(s: Session, parser: Parser, a: Answers, rest: seq<Input>)
  {
    var opening := Open(s, parser);
    var secret := AskLine(PasswordPrompt, opening.after);
    && opening.answer == Some(Opening(a.host, a.port, a.username))
    && secret.answer == Some(a.password) && secret.after.inputs == rest
  }

  lemma GotGives(s: Session, parser: Parser, a: Answers, rest: seq<Input>)
    requires Got(s, parser, a, rest)
    ensures Gives(s.inputs, parser, a, rest)
  {
    var host := AskHost(s, parser);
    var port := AskPort(host.after, parser);
    HostExactly(s, parser, a.host, host.after.inputs);
    PortExactly(host.after, parser, a.port, port.after.inputs);
    var j := port.after.inputs;
    assert j[1..][1..] == j[2..];
  }

  lemma GivenIsGot(s: Session, parser: Parser, a: Answers, i: seq<Input>, j: seq<Input>, rest: seq<Input>)
    requires Accepts(s.inputs, HostOf(parser), a.host, i) && Accepts(i, parser.port, a.port, j)
    requires |j| >= 2 && j[0] == Line(a.username) && j[1] == Line(a.password) && rest == j[2..]
    ensures Got(s, parser, a, rest)
  {
    var host := AskHost(s, parser);
    HostExactly(s, parser, a.host, i);
    assert host.answer == Some(a.host) && host.after.inputs == i;
    var port := AskPort(host.after, parser);
    PortExactly(host.after, parser, a.port, j);
    assert port.answer == Some(a.port) && port.after.inputs == j;
    assert AskLine(UsernamePrompt, port.after).answer == Some(a.username);
    assert j[1..][1..] == j[2..];
  }

  lemma GivesExactly(s: Session, parser: Parser, a: Answers, rest: seq<Input>)
    ensures Gives(s.inputs, parser, a, rest) <==> Got(s, parser, a, rest)
  {
    if Got(s, parser, a, rest) {
      GotGives(s, parser, a, rest);
    }
    if Gives(s.inputs, parser, a, rest) {
      var i, j :| Accepts(s.inputs, HostOf(parser), a.host, i) && Accepts(i, parser.port, a.port, j)
                  && |j| >= 2 && j[0] == Line(a.username) && j[1] == Line(a.password) && rest == j[2..];
      GivenIsGot(s, parser, a, i, j, rest);
    }
  }

  ghost predicate YesAt(inputs: seq<Input>, n: nat)
  {
    n < |inputs| && inputs[n].Line? && SaysYes(inputs[n].text)
  }

  ghost predicate OtherAt(inputs: seq<Input>, n: nat)
  {
    n < |inputs| && inputs[n].Line? && !SaysYes(inputs[n].text)
  }

  ghost predicate Agrees(a: Answers, rest: seq<Input>)
  {
    YesAt(rest, 0) && (a.password != "" && a.username == "" ==> YesAt(rest, 1))
  }

  ghost predicate Refuses(a: Answers, rest: seq<Input>)
  {
    OtherAt(rest, 0) || (a.password != "" && a.username == "" && YesAt(rest, 0) && OtherAt(rest, 1))
  }

  lemma CloseExactly(a: Answers, s: Session)
    ensures Close(a, s).verdict == Write(a) <==> Agrees(a, s.inputs)
    ensures Close(a, s).verdict.Write? ==> Close(a, s).verdict.answers == a
    ensures Close(a, s).verdict == Refused <==> Refuses(a, s.inputs)
  {
    forall i | 0 <= i < |s.inputs| && s.inputs[i].Line?
      ensures Affirmative(s.inputs[i].text) <==> SaysYes(s.inputs[i].text)
    {
      AffirmativeExactly(s.inputs[i].text);
    }
  }

  /** The last two things shown are the summary of the answers and the question for consent. */
  ghost predicate EndsWithSummary(shown: seq<Shown>, a: Answers)
  {
    && |shown| >= 2 && shown[|shown| - 1] == ConfirmPrompt
    && shown[|shown| - 2]
         == Summary(BrokerURI(a.host, a.port),
                    if a.username == "" then "not configured" else a.username,
                    if a.password == "" then "not configured" else "configured")
  }

  lemma ConfirmEndsWithSummary(a: Answers, s: Session)
    ensures EndsWithSummary(Confirm(a, s).after.shown, a)
  {
    var t := s.Say(SummaryOf(a));
    assert t.Say(ConfirmPrompt).shown[|t.shown| - 1] == SummaryOf(a);
  }

  /** Whoever agreed had been shown the broker, the username, and whether there is a password. */
  lemma ConsentFollowsSummary(s: Session, parser: Parser, a: Answers)
    requires Dialogue(s, parser).verdict == Write(a)
    ensures EndsWithSummary(Dialogue(s, parser).after.shown, a)
  {
    var secret := AskLine(PasswordPrompt, Open(s, parser).after);
    var o := Open(s, parser).answer.value;
    var given := Answers(o.host, o.port, o.username, secret.answer.value);
    assert Dialogue(s, parser) == Close(given, secret.after);
    if given.password != "" && given.username == "" {
      ConfirmEndsWithSummary(given, AskLine(WarningPrompt, secret.after).after);
    } else {
      ConfirmEndsWithSummary(given, secret.after);
    }
  }

  /** WHAT IS WRITTEN, AND WHEN. A dialogue writes answers exactly when its inputs give them and then say
      yes to every question asked; it is refused exactly when they give answers and then say something
      else, such as no or nothing, to one of them. */
  lemma VerdictExactly(s: Session, parser: Parser)
    ensures forall a :: Dialogue(s, parser).verdict == Write(a)
                   <==> exists rest :: Gives(s.inputs, parser, a, rest) && Agrees(a, rest)
    ensures Dialogue(s, parser).verdict == Refused
       <==> exists a, rest :: Gives(s.inputs, parser, a, rest) && Refuses(a, rest)
  {
    forall a, rest
      ensures Gives(s.inputs, parser, a, rest) <==> Got(s, parser, a, rest)
    {
      GivesExactly(s, parser, a, rest);
    }
    var opening := Open(s, parser);
    var secret := AskLine(PasswordPrompt, opening.after);
    if opening.answer.Some? && secret.answer.Some? {
      var o := opening.answer.value;
      var a := Answers(o.host, o.port, o.username, secret.answer.value);
      CloseExactly(a, secret.after);
      assert Gives(s.inputs, parser, a, secret.after.inputs);
    }
  }

  /** An answered question does not depend on the inputs it leaves: replacing those changes nothing
      but what is left. `rest` is what the question left, `other` replaces it. */
  ghost predicate Leaves(before: Session, after: Session, n: nat)
  {
    n <= |before.inputs| && after.inputs == before.inputs[n..]
  }

  function Swap(s: Session, n: nat, other: seq<Input>): Session
    requires n <= |s.inputs|
  {
    s.(inputs := s.inputs[..n] + other)
  }

  lemma {:induction false} AskHostLocal(s: Session, parser: Parser, other: seq<Input>) returns (n: nat)
    requires AskHost(s, parser).answer.Some?
    ensures Leaves(s, AskHost(s, parser).after, n)
    ensures AskHost(Swap(s, n, other), parser)
         == Reply(AskHost(s, parser).answer, AskHost(s, parser).after.(inputs := other))
    decreases |s.inputs|
  {
    var line := AskLine(HostPrompt, s);
    var r := parser.host(line.answer.value);
    if r.Ok? {
      n := 1;
      assert (s.inputs[..1] + other)[1..] == other;
    } else {
      var t := line.after.Say(HostComplaint(r.error));
      var m := AskHostLocal(t, parser, other);
      n := m + 1;
      assert (s.inputs[..n] + other)[1..] == t.inputs[..m] + other;
      assert AskLine(HostPrompt, Swap(s, n, other)).after.Say(HostComplaint(r.error)) == Swap(t, m, other);
    }
  }

  lemma {:induction false} AskPortLocal(s: Session, parser: Parser, other: seq<Input>) returns (n: nat)
    requires AskPort(s, parser).answer.Some?
    ensures Leaves(s, AskPort(s, parser).after, n)
    ensures AskPort(Swap(s, n, other), parser)
         == Reply(AskPort(s, parser).answer, AskPort(s, parser).after.(inputs := other))
    decreases |s.inputs|
  {
    var line := AskLine(PortPrompt, s);
    if parser.port(line.answer.value).Some? {
      n := 1;
      assert (s.inputs[..1] + other)[1..] == other;
    } else {
      var t := line.after.Say(PortComplaint);
      var m := AskPortLocal(t, parser, other);
      n := m + 1;
      assert (s.inputs[..n] + other)[1..] == t.inputs[..m] + other;
      assert AskLine(PortPrompt, Swap(s, n, other)).after.Say(PortComplaint) == Swap(t, m, other);
    }
  }

  /** Three consecutive stretches of the inputs, seen from the left. */
  lemma Stretches(i: seq<Input>, j: seq<Input>, k: seq<Input>, h: nat, p: nat, other: seq<Input>)
    requires h <= |i| && j == i[h..] && p <= |j| && k == j[p..] && k != []
    ensures h + p + 1 <= |i| && k[1..] == i[h + p + 1..]
    ensures i[..h + p + 1] + other == i[..h] + (j[..p] + (k[..1] + other))
  {}

  lemma OpenFrom(s: Session, t: Session, parser: Parser, other: seq<Input>)
    requires Open(s, parser).answer.Some?
    requires var host := AskHost(s, parser); var port := AskPort(host.after, parser);
             exists u: seq<Input>, v: seq<Input> ::
               && AskHost(t, parser) == Reply(host.answer, host.after.(inputs := u))
               && AskPort(host.after.(inputs := u), parser) == Reply(port.answer, port.after.(inputs := v))
               && v == port.after.inputs[..1] + other
    ensures Open(t, parser) == Reply(Open(s, parser).answer, Open(s, parser).after.(inputs := other))
  {
    var i := AskPort(AskHost(s, parser).after, parser).after.inputs;
    assert (i[..1] + other)[1..] == other;
  }

  lemma OpenLocal(s: Session, parser: Parser, other: seq<Input>) returns (n: nat)
    requires Open(s, parser).answer.Some?
    ensures Leaves(s, Open(s, parser).after, n)
    ensures Open(Swap(s, n, other), parser) == Reply(Open(s, parser).answer, Open(s, parser).after.(inputs := other))
  {
    var host := AskHost(s, parser);
    var port := AskPort(host.after, parser);
    var v := port.after.inputs[..1] + other;
    var p := AskPortLocal(host.after, parser, v);
    var u := host.after.inputs[..p] + v;
    var h := AskHostLocal(s, parser, u);
    n := h + p + 1;
    Stretches(s.inputs, host.after.inputs, port.after.inputs, h, p, other);
    OpenFrom(s, Swap(s, n, other), parser, other);
  }

  /** SECRECY. Two sessions that differ only in which non-empty password was typed show the same
      text, end the same way, and write the same answers except for the password. */
  lemma PasswordIsNotShown(s: Session, parser: Parser, p: string, q: string, tail: seq<Input>)
    requires Open(s, parser).answer.Some? && Open(s, parser).after.inputs == [Line(p)] + tail
    requires p != "" && q != ""
    ensures exists n | Leaves(s, Open(s, parser).after, n) ::
              SameButPassword(Dialogue(s, parser), Dialogue(Swap(s, n, [Line(q)] + tail), parser), q)
  {
    var n := OpenLocal(s, parser, [Line(q)] + tail);
    var o := Open(s, parser).answer.value;
    var after := Open(s, parser).after;
    assert ([Line(p)] + tail)[1..] == tail && ([Line(q)] + tail)[1..] == tail;
    CloseHidesPassword(Answers(o.host, o.port, o.username, p), q, AskLine(PasswordPrompt, after).after);
    assert SameButPassword(Dialogue(s, parser), Dialogue(Swap(s, n, [Line(q)] + tail), parser), q);
  }

  ghost predicate SameButPassword(r: Report, s: Report, q: string)
  {
    && s.after == r.after
    && s.verdict == if r.verdict.Write? then Write(r.verdict.answers.(password := q)) else r.verdict
  }

  lemma CloseHidesPassword(a: Answers, q: string, s: Session)
    requires a.password != "" && q != ""
    ensures SameButPassword(Close(a, s), Close(a.(password := q), s), q)
  {}
}
