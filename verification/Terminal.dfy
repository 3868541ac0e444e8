/** The terminal window's Enter handler (script.js): the typed line is
    trimmed, echoed after the prompt, its first space-separated word is
    looked up (case-insensitively) in a fixed command table, and the reply
    and a blank separator are appended to the log.  The log is the sequence
    of `.terminal-line` elements under `#terminalOutput`. */
module Terminal {
  import opened Common
  import opened JsText

  /** One `.terminal-line`: the prompt followed by the trimmed input, a
      command's reply, or the blank separator (`&nbsp;`). */
  datatype Line = Prompt(input: string) | Output(text: string) | Blank

  /** The entries of the `commands` table. */
  datatype Command = Help | About | Skills | Projects | Contact | Clear | Date | Ls

  /** The key each command is stored under. */
  function Name(c: Command): string {
    match c
    case Help => "help"
    case About => "about"
    case Skills => "skills"
    case Projects => "projects"
    case Contact => "contact"
    case Clear => "clear"
    case Date => "date"
    case Ls => "ls"
  }

  /** `commands[cmd]`: the command stored under `name`, if any. */
  function Lookup(name: string): (c: Option<Command>)
    ensures c.Some? ==> Name(c.value) == name
  {
    match name
    case "help" => Some(Help)
    case "about" => Some(About)
    case "skills" => Some(Skills)
    case "projects" => Some(Projects)
    case "contact" => Some(Contact)
    case "clear" => Some(Clear)
    case "date" => Some(Date)
    case "ls" => Some(Ls)
    case _ => None
  }

  /** Every command is found under its own name, so the table has exactly
      eight keys. */
  lemma LookupName(c: Command)
    ensures Lookup(Name(c)) == Some(c)
  {
  }

  const HelpText: string :=
    "Available commands:\n"
    + "  help       - Show this help message\n"
    + "  about      - Information about Sanya\n"
    + "  skills     - List technical skills\n"
    + "  projects   - Show projects\n"
    + "  contact    - Display contact information\n"
    + "  clear      - Clear terminal\n"
    + "  date       - Show current date and time\n"
    + "  echo       - Echo back text\n"
    + "  ls         - List available sections"

  const AboutText: string :=
    "Sanya - Web Developer & Designer\n"
    + "I'm passionate about creating beautiful and functional websites.\n"
    + "Specializing in modern web technologies."

  const SkillsText: string :=
    "Technical Skills:\n"
    + "\U{2022} Frontend: HTML, CSS, JavaScript, React, Vue.js\n"
    + "\U{2022} Backend: Node.js, Python, PHP\n"
    + "\U{2022} Databases: MySQL, PostgreSQL, MongoDB\n"
    + "\U{2022} Tools: Git, GitHub, GitLab, Figma, Adobe XD"

  const ProjectsText: string :=
    "Featured Projects:\n"
    + "1. E-Commerce Platform (React, Node.js, MongoDB)\n"
    + "2. Task Management App (Vue.js, Firebase, Tailwind)\n"
    + "3. Portfolio Generator (JavaScript, CSS, API)"

  const ContactText: string :=
    "Contact Information:\n"
    + "Email: your.email@example.com\n"
    + "Phone: +1 (234) 567-890\n"
    + "Location: Your City, Country\n"
    + "\n"
    + "GitHub: github.com/soy-sauce-sanya\n"
    + "LinkedIn: linkedin.com/in/tsoy-choi-sanya-aleksandr"

  const LsText: string := "about  skills  projects  contact"

  /** The fixed replies of the table's printing commands.  The handlers
      below take them as a parameter; `Replies` holds the page's texts. */
  datatype Texts = Texts(help: string, about: string, skills: string, projects: string,
                         contact: string, ls: string)

  const Replies := Texts(HelpText, AboutText, SkillsText, ProjectsText, ContactText, LsText)

  /** What a handler does to the log: print one line, or (for `clear`)
      empty the whole output and print nothing. */
  datatype Effect = Print(text: string) | Wipe

  /** Calling `commands[c]()`; `now` stands for `new Date().toString()`. */
  function Perform(texts: Texts, c: Command, now: string): (e: Effect)
    ensures e.Wipe? <==> c == Clear
    ensures c == Date ==> e == Print(now)
    ensures c == Ls ==> e == Print(texts.ls)
  {
    match c
    case Help => Print(texts.help)
    case About => Print(texts.about)
    case Skills => Print(texts.skills)
    case Projects => Print(texts.projects)
    case Contact => Print(texts.contact)
    case Clear => Wipe
    case Date => Print(now)
    case Ls => Print(texts.ls)
  }

  /** The reply to an unknown word: the word can be read back from it,
      between a 19-character lead and a 37-character tail. */
  function NotFound(cmd: string): (r: string)
    ensures |r| == 19 + |cmd| + 37
    ensures r[19..|r| - 37] == cmd
  {
    var lead := "Command not found: ";
    var tail := ". Type 'help' for available commands.";
    assert (lead + cmd + tail)[|lead|..|lead| + |cmd|] == cmd;
    lead + cmd + tail
  }

  /** The command word: the text before the first space, lower-cased; it
      never contains a space. */
  function CommandWord(input: string): (w: string)
    ensures ' ' !in w
  {
    var first := Split(input)[0];
    SplitPiecesHaveNoSpace(input);
    LowerKeepsSpaces(first);
    Lower(first)
  }

  /** The reply to a non-empty trimmed input: `echo` first, then the table,
      then the not-found message for any non-empty word.  `None` is the
      `output === undefined` case (an empty word), and only `clear` wipes. */
  function Respond(texts: Texts, input: string, now: string): (e: Option<Effect>)
    ensures e.None? <==> CommandWord(input) == ""
    ensures e == Some(Wipe) <==> CommandWord(input) == "clear"
  {
    var parts := Split(input);
    var cmd := Lower(parts[0]);
    if cmd == "echo" then Some(Print(Join(parts[1..])))
    else match Lookup(cmd)
      case Some(c) => Some(Perform(texts, c, now))
      case None => if cmd != "" then Some(Print(NotFound(cmd))) else None
  }

  /** The reply to a word `w`, a space, and any text `rest`: nothing for an
      empty word, `rest` itself (inner spacing kept) for `echo` in any
      letter case, the handler's effect for a table word, and the not-found
      message naming the lower-cased word for any other word. */
  lemma RespondToWordAndRest(texts: Texts, w: string, rest: string, now: string)
    requires ' ' !in w
    ensures CommandWord(w + " " + rest) == Lower(w)
    ensures w == "" ==> Respond(texts, w + " " + rest, now) == None
    ensures Lower(w) == "echo" ==> Respond(texts, w + " " + rest, now) == Some(Print(rest))
    ensures Lower(w) != "echo" && Lookup(Lower(w)).Some? ==>
              Respond(texts, w + " " + rest, now) == Some(Perform(texts, Lookup(Lower(w)).value, now))
    ensures w != "" && Lower(w) != "echo" && Lookup(Lower(w)).None? ==>
              Respond(texts, w + " " + rest, now) == Some(Print(NotFound(Lower(w))))
  {
    SplitAtFirstSpace(w, rest);
    JoinSplit(rest);
    assert ([w] + Split(rest))[1..] == Split(rest);
  }

  /** The reply to a single word `w`: as above, with `echo` printing the
      empty text (`[].join(' ')`). */
  lemma RespondToWord(texts: Texts, w: string, now: string)
    requires ' ' !in w
    ensures CommandWord(w) == Lower(w)
    ensures w == "" ==> Respond(texts, w, now) == None
    ensures Lower(w) == "echo" ==> Respond(texts, w, now) == Some(Print(""))
    ensures Lower(w) != "echo" && Lookup(Lower(w)).Some? ==>
              Respond(texts, w, now) == Some(Perform(texts, Lookup(Lower(w)).value, now))
    ensures w != "" && Lower(w) != "echo" && Lookup(Lower(w)).None? ==>
              Respond(texts, w, now) == Some(Print(NotFound(Lower(w))))
  {
    SplitNoSpace(w);
  }

  /** Whether the trimmed input is a `clear` command. */
  predicate IsClear(input: string) {
    input != "" && CommandWord(input) == "clear"
  }

  /** How the handler writes to the log: the prompt line, the reply's
      line if it printed one, the blank separator; a wipe empties the log
      (prompt included) before the blank line is added. */
  function Record(log: seq<Line>, input: string, reply: Option<Effect>): (r: seq<Line>)
    ensures reply == Some(Wipe) ==> r == [Blank]
    ensures reply != Some(Wipe) ==>
              && |r| == |log| + (if reply.Some? then 3 else 2)
              && r[..|log|] == log
              && r[|log|] == Prompt(input)
              && (reply.Some? ==> r[|log| + 1] == Output(reply.value.text))
              && r[|r| - 1] == Blank
  {
    match reply
    case Some(Wipe) => [Blank]
    case Some(Print(text)) => log + [Prompt(input), Output(text), Blank]
    case None => log + [Prompt(input), Blank]
  }

  /** The Enter key: the earlier log, a prompt line echoing the trimmed
      input, at most one reply line, then a blank line; `clear` instead
      leaves only the blank line. */
  function Enter(texts: Texts, log: seq<Line>, raw: string, now: string): (r: seq<Line>)
    ensures IsClear(Trim(raw)) ==> r == [Blank]
    ensures !IsClear(Trim(raw)) ==>
              && |log| + 2 <= |r| <= |log| + 3
              && r[..|log|] == log
              && r[|log|] == Prompt(Trim(raw))
              && (|r| == |log| + 3 ==> r[|log| + 1].Output?)
              && r[|r| - 1] == Blank
  {
    var input := Trim(raw);
    var reply: Option<Effect> := if input == "" then None else Respond(texts, input, now);
    Record(log, input, reply)
  }

  /** A trimmed, non-empty input starts with a non-space character, so its
      command word is never empty and the not-found branch always prints. */
  lemma CommandWordNonEmpty(raw: string)
    requires Trim(raw) != ""
    ensures CommandWord(Trim(raw)) != ""
  {
    var input := Trim(raw);
    var rest := Split(input[1..]);
    assert input[0] != ' ';
    assert Split(input) == [[input[0]] + rest[0]] + rest[1..];
  }

  /** Any non-empty command word other than `clear` gets a printed reply. */
  lemma RespondPrints(texts: Texts, input: string, now: string)
    requires CommandWord(input) != "" && CommandWord(input) != "clear"
    ensures Respond(texts, input, now).Some? && Respond(texts, input, now).value.Print?
  {
  }

  /** Every non-empty input other than `clear` adds exactly one reply line
      between its prompt and the blank line. */
  lemma OneReplyPerCommand(texts: Texts, log: seq<Line>, raw: string, now: string)
    requires Trim(raw) != "" && CommandWord(Trim(raw)) != "clear"
    ensures |Enter(texts, log, raw, now)| == |log| + 3
    ensures Enter(texts, log, raw, now)[|log| + 1].Output?
  {
    CommandWordNonEmpty(raw);
    var input := Trim(raw);
    RespondPrints(texts, input, now);
    EnterPrints(texts, log, raw, now, Respond(texts, input, now).value.text);
  }

  /** An all-blank input adds the prompt and the blank line only. */
  lemma BlankInput(texts: Texts, log: seq<Line>, raw: string, now: string)
    requires AllWhiteSpace(raw)
    ensures Enter(texts, log, raw, now) == log + [Prompt(""), Blank]
  {
    TrimBlank(raw);
  }

  /** `clear` (in any letter case, with any arguments) leaves exactly one
      blank line, whatever was logged before. */
  lemma ClearLeavesBlank(texts: Texts, log: seq<Line>, raw: string, now: string)
    requires Trim(raw) != "" && CommandWord(Trim(raw)) == "clear"
    ensures Enter(texts, log, raw, now) == [Blank]
  {
  }

  /** Whenever the reply prints a text, the log gains the prompt, that
      text and the blank line. */
  lemma EnterPrints(texts: Texts, log: seq<Line>, raw: string, now: string, text: string)
    requires Trim(raw) != "" && Respond(texts, Trim(raw), now) == Some(Print(text))
    ensures Enter(texts, log, raw, now) == log + [Prompt(Trim(raw)), Output(text), Blank]
  {
  }

  /** The same for an input that is already trimmed. */
  lemma EnterPrintsTight(texts: Texts, log: seq<Line>, input: string, now: string, text: string)
    requires Trim(input) == input && input != ""
    requires Respond(texts, input, now) == Some(Print(text))
    ensures Enter(texts, log, input, now) == log + [Prompt(input), Output(text), Blank]
  {
    EnterPrints(texts, log, input, now, text);
  }

  /** A word without spaces or capitals is its own command word. */
  lemma PlainCommandWord(w: string)
    requires ' ' !in w
    requires forall i :: 0 <= i < |w| ==> !('A' <= w[i] <= 'Z')
    ensures CommandWord(w) == w
  {
    SplitNoSpace(w);
    LowerNoUpper(w);
  }

  /** `echo` prints exactly what follows the first space, inner spacing
      kept; with nothing after it, it prints an empty line. */
  lemma EchoPrintsRest(texts: Texts, log: seq<Line>, word: string, rest: string, now: string)
    requires ' ' !in word && Lower(word) == "echo"
    requires Tight(word + " " + rest)
    ensures Enter(texts, log, word + " " + rest, now)
              == log + [Prompt(word + " " + rest), Output(rest), Blank]
  {
    var input := word + " " + rest;
    TrimTight(input);
    RespondToWordAndRest(texts, word, rest, now);
    EnterPrintsTight(texts, log, input, now, rest);
  }

  /** A lone `echo` prints an empty line. */
  lemma EchoAlone(texts: Texts, log: seq<Line>, word: string, now: string)
    requires ' ' !in word && Lower(word) == "echo"
    requires Tight(word)
    ensures Enter(texts, log, word, now) == log + [Prompt(word), Output(""), Blank]
  {
    TrimTight(word);
    RespondToWord(texts, word, now);
    EnterPrints(texts, log, word, now, "");
  }

  /** Any word outside the table (after lower-casing) gets the not-found
      message naming the lower-cased word. */
  lemma UnknownCommand(texts: Texts, log: seq<Line>, raw: string, now: string)
    requires Trim(raw) != ""
    requires CommandWord(Trim(raw)) != "echo" && Lookup(CommandWord(Trim(raw))).None?
    ensures Enter(texts, log, raw, now)
              == log + [Prompt(Trim(raw)), Output(NotFound(CommandWord(Trim(raw)))), Blank]
  {
    CommandWordNonEmpty(raw);
    EnterPrints(texts, log, raw, now, NotFound(CommandWord(Trim(raw))));
  }

  /** A table command prints its own text, whatever the arguments. */
  lemma TableCommand(texts: Texts, log: seq<Line>, raw: string, now: string, c: Command)
    requires Trim(raw) != "" && c != Clear
    requires CommandWord(Trim(raw)) == Name(c)
    ensures Enter(texts, log, raw, now)
              == log + [Prompt(Trim(raw)), Output(Perform(texts, c, now).text), Blank]
  {
    LookupName(c);
    assert Name(c) != "echo";
    EnterPrints(texts, log, raw, now, Perform(texts, c, now).text);
  }

  /** `ls` prints the table's listing. */
  lemma LsPrints(texts: Texts, log: seq<Line>, now: string)
    ensures Enter(texts, log, "ls", now) == log + [Prompt("ls"), Output(texts.ls), Blank]
  {
    TrimTight("ls");
    PlainCommandWord("ls");
    TableCommand(texts, log, "ls", now, Ls);
  }

  /** On the page, `ls` lists the four sections. */
  lemma LsExample(log: seq<Line>, now: string)
    ensures Enter(Replies, log, "ls", now) == log + [Prompt("ls"), Output("about  skills  projects  contact"), Blank]
  {
    LsPrints(Replies, log, now);
  }

  /** `echo hello world` prints `hello world`. */
  lemma EchoExample(texts: Texts, log: seq<Line>, now: string)
    ensures Enter(texts, log, "echo hello world", now)
              == log + [Prompt("echo hello world"), Output("hello world"), Blank]
  {
    assert "echo hello world" == "echo" + " " + "hello world";
    LowerNoUpper("echo");
    EchoPrintsRest(texts, log, "echo", "hello world", now);
  }
}
