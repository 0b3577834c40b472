/** Quoting for the ssh command line, against a tokenizer that follows sections 2.2.1
    (escape character), 2.2.2 (single quotes) and 2.3 (token recognition) of IEEE Std
    1003.1, Shell Command Language. */
module ShellQuote {
  import opened Wrappers

  // ------------------------------------------------------------------- tokenizer

  datatype Mode = Between | InWord | SingleQuoted

  /** Characters that outside quotes would start something other than a plain word. */
  predicate Special(c: char)
  {
    || c == '|' || c == '&' || c == ';' || c == '<' || c == '>' || c == '(' || c == ')' || c == '$'
    || c == '`' || c == '"' || c == '*' || c == '?' || c == '[' || c == '#' || c == '~' || c == '\n'
  }

  predicate Blank(c: char)
  {
    c == ' ' || c == '\t'
  }

  /** The tokens of `s`, quotes removed; nothing when `s` uses a construct these rules
      do not cover or ends inside a quotation. */
  function Scan(s: string, mode: Mode, word: string, tokens: seq<string>): Option<seq<string>>
    decreases |s|
  {
    if s == "" then
      match mode
      case Between => Some(tokens)
      case InWord => Some(tokens + [word])
      case SingleQuoted => None
    else if mode.SingleQuoted? then
      if s[0] == '\'' then Scan(s[1..], InWord, word, tokens)
      else Scan(s[1..], SingleQuoted, word + [s[0]], tokens)
    else if s[0] == '\'' then Scan(s[1..], SingleQuoted, word, tokens)
    else if s[0] == '\\' then
      if |s| == 1 then None
      else if s[1] == '\n' then Scan(s[2..], mode, word, tokens)
      else Scan(s[2..], InWord, word + [s[1]], tokens)
    else if Blank(s[0]) then
      if mode.Between? then Scan(s[1..], Between, "", tokens)
      else Scan(s[1..], Between, "", tokens + [word])
    else if Special(s[0]) then None
    else Scan(s[1..], InWord, word + [s[0]], tokens)
  }

  function Tokenize(s: string): Option<seq<string>>
  {
    Scan(s, Between, "", [])
  }

  // --------------------------------------------------------------------- quoting

  /** strings.ReplaceAll of each single quote by quote, backslash, quote, quote. */
  function Escaped(s: string): string
  {
    if s == "" then ""
    else (if s[0] == '\'' then "'\\''" else [s[0]]) + Escaped(s[1..])
  }

  function Quote(s: string): string
  {
    "'" + Escaped(s) + "'"
  }

  /** A word of a command is made of literal text and quoted fragments. */
  datatype Piece = Plain(text: string) | Quoted(text: string)

  /** The characters the fixed part of a command is written in. */
  predicate Ordinary(c: char)
  {
    'a' <= c <= 'z' || c == '-' || c == '=' || 'A' <= c <= 'Z'
  }

  predicate AllOrdinary(t: string)
  {
    forall i | 0 <= i < |t| :: Ordinary(t[i])
  }

  predicate PieceOk(p: Piece)
  {
    p.Plain? ==> p.text != "" && AllOrdinary(p.text)
  }

  predicate WordOk(w: seq<Piece>)
  {
    w != [] && forall p | p in w :: PieceOk(p)
  }

  function PieceText(p: Piece): string
  {
    match p case Plain(t) => t case Quoted(t) => Quote(t)
  }

  function WordText(w: seq<Piece>): string
  {
    if w == [] then "" else PieceText(w[0]) + WordText(w[1..])
  }

  function Meaning(w: seq<Piece>): string
  {
    if w == [] then "" else w[0].text + Meaning(w[1..])
  }

  /** A command line: the words separated by single spaces. */
  function CommandText(words: seq<seq<Piece>>): string
  {
    if |words| == 0 then ""
    else if |words| == 1 then WordText(words[0])
    else WordText(words[0]) + " " + CommandText(words[1..])
  }

  function Meanings(words: seq<seq<Piece>>): seq<string>
  {
    seq(|words|, i requires 0 <= i < |words| => Meaning(words[i]))
  }

  // ------------------------------------------------------------------ round trip

  lemma {:induction false} ScanQuoted(s: string, rest: string, word: string, tokens: seq<string>)
    ensures Scan(Escaped(s) + "'" + rest, SingleQuoted, word, tokens) == Scan(rest, InWord, word + s, tokens)
    decreases |s|
  {
    if s == "" {
      assert Escaped(s) + "'" + rest == "'" + rest;
      assert word + s == word;
      assert ("'" + rest)[1..] == rest;
    } else {
      var more := Escaped(s[1..]) + "'" + rest;
      ScanQuoted(s[1..], rest, word + [s[0]], tokens);
      assert word + [s[0]] + s[1..] == word + s;
      if s[0] == '\'' {
        ScanEscapedQuote(more, word, tokens);
        assert Escaped(s) + "'" + rest == "'\\''" + more;
      } else {
        assert Escaped(s) + "'" + rest == [s[0]] + more;
        assert ([s[0]] + more)[1..] == more;
      }
    }
  }

  /** The escape for one quote: close, escaped quote, open again. */
  lemma ScanEscapedQuote(more: string, word: string, tokens: seq<string>)
    ensures Scan("'\\''" + more, SingleQuoted, word, tokens) == Scan(more, SingleQuoted, word + "'", tokens)
  {
    var s, escape, reopen := "'\\''" + more, "\\''" + more, "'" + more;
    assert s[1..] == escape && escape[2..] == reopen && reopen[1..] == more;
    assert Scan(s, SingleQuoted, word, tokens) == Scan(escape, InWord, word, tokens);
    assert Scan(escape, InWord, word, tokens) == Scan(reopen, InWord, word + "'", tokens);
  }

  lemma {:induction false} ScanPlain(t: string, rest: string, mode: Mode, word: string, tokens: seq<string>)
    requires t != "" && AllOrdinary(t)
    requires !mode.SingleQuoted?
    ensures Scan(t + rest, mode, word, tokens) == Scan(rest, InWord, word + t, tokens)
    decreases |t|
  {
    assert (t + rest)[1..] == t[1..] + rest;
    if |t| == 1 {
      assert t[1..] + rest == rest && word + t == word + [t[0]];
    } else {
      ScanPlain(t[1..], rest, InWord, word + [t[0]], tokens);
      assert word + [t[0]] + t[1..] == word + t;
    }
  }

  lemma ScanPiece(p: Piece, rest: string, mode: Mode, word: string, tokens: seq<string>)
    requires PieceOk(p) && !mode.SingleQuoted?
    ensures Scan(PieceText(p) + rest, mode, word, tokens) == Scan(rest, InWord, word + p.text, tokens)
  {
    match p {
      case Plain(t) => ScanPlain(t, rest, mode, word, tokens);
      case Quoted(t) =>
        ScanQuoted(t, rest, word, tokens);
        var s := Quote(t) + rest;
        assert s[1..] == Escaped(t) + "'" + rest;
    }
  }

  lemma {:induction false} ScanWord(w: seq<Piece>, rest: string, mode: Mode, word: string, tokens: seq<string>)
    requires WordOk(w) && !mode.SingleQuoted?
    ensures Scan(WordText(w) + rest, mode, word, tokens) == Scan(rest, InWord, word + Meaning(w), tokens)
    decreases |w|
  {
    assert w[0] in w;
    var more := WordText(w[1..]) + rest;
    assert WordText(w) + rest == PieceText(w[0]) + more;
    ScanPiece(w[0], more, mode, word, tokens);
    assert word + w[0].text + Meaning(w[1..]) == word + Meaning(w);
    if |w| == 1 {
      assert w[1..] == [] && more == rest;
      assert word + w[0].text + "" == word + w[0].text;
    } else {
      ScanWord(w[1..], rest, InWord, word + w[0].text, tokens);
    }
  }

  lemma ScanLastWord(w: seq<Piece>, tokens: seq<string>)
    requires WordOk(w)
    ensures Scan(WordText(w), Between, "", tokens) == Some(tokens + [Meaning(w)])
  {
    ScanWord(w, "", Between, "", tokens);
    assert WordText(w) + "" == WordText(w);
    assert "" + Meaning(w) == Meaning(w);
  }

  lemma ScanWordAndSpace(w: seq<Piece>, more: string, tokens: seq<string>)
    requires WordOk(w)
    ensures Scan(WordText(w) + " " + more, Between, "", tokens) == Scan(more, Between, "", tokens + [Meaning(w)])
  {
    var rest := " " + more;
    ScanWord(w, rest, Between, "", tokens);
    assert WordText(w) + " " + more == WordText(w) + rest;
    assert "" + Meaning(w) == Meaning(w);
    assert rest[1..] == more;
  }

  lemma {:induction false} ScanCommand(words: seq<seq<Piece>>, tokens: seq<string>)
    requires forall w | w in words :: WordOk(w)
    ensures Scan(CommandText(words), Between, "", tokens) == Some(tokens + Meanings(words))
    decreases |words|
  {
    if words == [] {
      assert tokens + Meanings(words) == tokens;
    } else {
      var w, rest := words[0], words[1..];
      assert w in words;
      assert tokens + [Meaning(w)] + Meanings(rest) == tokens + Meanings(words);
      if |words| == 1 {
        ScanLastWord(w, tokens);
        assert tokens + Meanings(words) == tokens + [Meaning(w)];
      } else {
        ScanWordAndSpace(w, CommandText(rest), tokens);
        ScanCommand(rest, tokens + [Meaning(w)]);
      }
    }
  }

  /** A command line built from literal text and quoted fragments splits back into
      exactly the intended words, whatever the fragments contain. */
  lemma CommandRoundTrip(words: seq<seq<Piece>>)
    requires forall w | w in words :: WordOk(w)
    ensures Tokenize(CommandText(words)) == Some(Meanings(words))
  {
    ScanCommand(words, []);
    assert [] + Meanings(words) == Meanings(words);
  }

  function JoinSpaces(words: seq<string>): string
  {
    if |words| == 0 then "" else if |words| == 1 then words[0] else words[0] + " " + JoinSpaces(words[1..])
  }

  function QuoteAll(words: seq<string>): seq<string>
  {
    if words == [] then [] else [Quote(words[0])] + QuoteAll(words[1..])
  }

  /** Any list of strings, each quoted and joined by spaces, splits back into itself. */
  lemma {:induction false} QuoteRoundTrip(words: seq<string>)
    ensures Tokenize(JoinSpaces(QuoteAll(words))) == Some(words)
  {
    var pieces := seq(|words|, i requires 0 <= i < |words| => [Quoted(words[i])]);
    QuotedWords(words, pieces);
    CommandRoundTrip(pieces);
  }

  lemma {:induction false} QuotedWords(words: seq<string>, pieces: seq<seq<Piece>>)
    requires |pieces| == |words| && forall i | 0 <= i < |words| :: pieces[i] == [Quoted(words[i])]
    ensures CommandText(pieces) == JoinSpaces(QuoteAll(words))
    ensures Meanings(pieces) == words
    decreases |words|
  {
    if words != [] {
      QuotedWords(words[1..], pieces[1..]);
      assert WordText(pieces[0]) == Quote(words[0]) + WordText([]) == Quote(words[0]);
      assert Meaning(pieces[0]) == words[0] + Meaning([]) == words[0];
      assert QuoteAll(words)[1..] == QuoteAll(words[1..]);
    }
  }

  // ----------------------------------------------------------------- ssh command

  /** The words of the sftp.command option, as its format string spells them. */
  function SftpWords(port: string, keyPath: string, knownHosts: string, target: string): seq<seq<Piece>>
  {
    [[Plain("ssh")], [Plain("-p")], [Quoted(port)], [Plain("-i")], [Quoted(keyPath)], [Plain("-o")],
     [Plain("UserKnownHostsFile="), Quoted(knownHosts)], [Plain("-o")], [Plain("StrictHostKeyChecking=yes")],
     [Plain("-o")], [Plain("BatchMode=yes")], [Quoted(target)], [Plain("-s")], [Plain("sftp")]]
  }

  /** A command from its words' texts. */
  lemma {:induction false} CommandIsJoined(words: seq<seq<Piece>>, texts: seq<string>)
    requires |texts| == |words| && forall i | 0 <= i < |words| :: WordText(words[i]) == texts[i]
    ensures CommandText(words) == JoinSpaces(texts)
    decreases |words|
  {
    if |words| > 1 {
      CommandIsJoined(words[1..], texts[1..]);
    }
  }

  lemma {:induction false} JoinedInTwo(a: seq<string>, b: seq<string>)
    requires a != [] && b != []
    ensures JoinSpaces(a + b) == JoinSpaces(a) + (" " + JoinSpaces(b))
    decreases |a|
  {
    assert (a + b)[1..] == a[1..] + b;
    if |a| == 1 {
      assert a[1..] + b == b;
      assert a[0] + " " + JoinSpaces(b) == a[0] + (" " + JoinSpaces(b));
    } else {
      JoinedInTwo(a[1..], b);
      assert a[0] + " " + (JoinSpaces(a[1..]) + (" " + JoinSpaces(b))) == a[0] + " " + JoinSpaces(a[1..]) + (" " + JoinSpaces(b));
    }
  }

  lemma JoinedTwo(a: string, b: string)
    ensures JoinSpaces([a, b]) == a + " " + b
  {
    assert [a, b][1..] == [b];
  }

  /** An option and its fragment in front of the rest of the command. */
  lemma JoinedOption(option: string, fragment: string, rest: seq<string>, text: string)
    requires rest != [] && " " + JoinSpaces(rest) == text
    ensures " " + JoinSpaces([option, fragment] + rest) == " " + option + " " + (fragment + text)
  {
    JoinedTwo(option, fragment);
    JoinedInTwo([option, fragment], rest);
    assert " " + (option + " " + fragment + text) == " " + option + " " + (fragment + text);
  }

  /** The command as the source's format string lays it out. */
  function SftpFormat(port: string, keyPath: string, knownHosts: string, target: string): string
  {
    "ssh -p " + (Quote(port) + (" -i " + (Quote(keyPath) + (" -o UserKnownHostsFile=" + (Quote(knownHosts)
    + (" -o StrictHostKeyChecking=yes -o BatchMode=yes " + (Quote(target) + " -s sftp")))))))
  }

  lemma OptionTexts()
    ensures " " + "-o" + " " + "StrictHostKeyChecking=yes" == " -o StrictHostKeyChecking=yes"
    ensures " " + "-o" + " " + "BatchMode=yes" + " " == " -o BatchMode=yes "
  {
  }

  lemma BothOptionTexts()
    ensures " -o StrictHostKeyChecking=yes" + " -o BatchMode=yes " == " -o StrictHostKeyChecking=yes -o BatchMode=yes "
  {
  }

  lemma TwoOptions(o: string, a: string, b: string, rest: seq<string>)
    requires rest != []
    ensures " " + JoinSpaces([o, a] + ([o, b] + rest)) == " " + o + " " + a + (" " + o + " " + b + " ") + JoinSpaces(rest)
  {
    var text := JoinSpaces(rest);
    JoinedOption(o, b, rest, " " + text);
    assert " " + o + " " + (b + (" " + text)) == " " + o + " " + b + " " + text;
    var more := " " + o + " " + b + " " + text;
    JoinedOption(o, a, [o, b] + rest, more);
    assert " " + o + " " + (a + more) == " " + o + " " + a + more;
    assert " " + o + " " + a + more == " " + o + " " + a + (" " + o + " " + b + " ") + text;
  }

  /** The two fixed options. */
  lemma FixedOptions(rest: seq<string>)
    requires rest != []
    ensures " " + JoinSpaces(["-o", "StrictHostKeyChecking=yes"] + (["-o", "BatchMode=yes"] + rest))
            == " -o StrictHostKeyChecking=yes -o BatchMode=yes " + JoinSpaces(rest)
  {
    TwoOptions("-o", "StrictHostKeyChecking=yes", "BatchMode=yes", rest);
    OptionTexts();
    BothOptionTexts();
  }

  lemma HostsOption(quoted: string, rest: seq<string>, text: string)
    requires rest != [] && " " + JoinSpaces(rest) == text
    ensures " " + JoinSpaces(["-o", "UserKnownHostsFile=" + quoted] + rest) == " -o UserKnownHostsFile=" + (quoted + text)
  {
    var option := "UserKnownHostsFile=";
    JoinedOption("-o", option + quoted, rest, text);
    assert " " + "-o" + " " + (option + quoted + text) == " " + "-o" + " " + option + (quoted + text);
    assert " " + "-o" + " " + option == " -o UserKnownHostsFile=";
  }

  lemma TargetText(target: string)
    ensures JoinSpaces([Quote(target), "-s", "sftp"]) == Quote(target) + " -s sftp"
  {
    JoinedInTwo([Quote(target)], ["-s", "sftp"]);
    JoinedTwo("-s", "sftp");
    assert " " + ("-s" + " " + "sftp") == " -s sftp";
    assert [Quote(target)] + ["-s", "sftp"] == [Quote(target), "-s", "sftp"];
  }

  /** The front of the command, up to the key. */
  lemma FrontText(port: string, key: string, hosts: seq<string>, text: string)
    requires hosts != [] && " " + JoinSpaces(hosts) == text
    ensures JoinSpaces(["ssh"] + (["-p", port] + (["-i", key] + hosts))) == "ssh -p " + (port + (" -i " + (key + text)))
  {
    JoinedOption("-i", key, hosts, text);
    assert " " + "-i" + " " == " -i ";
    var more := " -i " + (key + text);
    JoinedOption("-p", port, ["-i", key] + hosts, more);
    JoinedInTwo(["ssh"], ["-p", port] + (["-i", key] + hosts));
    assert "ssh" + (" " + "-p" + " " + (port + more)) == "ssh" + (" " + "-p" + " ") + (port + more);
    assert "ssh" + (" " + "-p" + " ") == "ssh -p ";
  }

  lemma SftpTexts(port: string, keyPath: string, knownHosts: string, target: string)
    ensures JoinSpaces(["ssh"] + (["-p", Quote(port)] + (["-i", Quote(keyPath)] + (["-o", "UserKnownHostsFile=" + Quote(knownHosts)]
              + (["-o", "StrictHostKeyChecking=yes"] + (["-o", "BatchMode=yes"] + [Quote(target), "-s", "sftp"]))))))
            == SftpFormat(port, keyPath, knownHosts, target)
  {
    var t := [Quote(target), "-s", "sftp"];
    TargetText(target);
    FixedOptions(t);
    var fixed := ["-o", "StrictHostKeyChecking=yes"] + (["-o", "BatchMode=yes"] + t);
    HostsOption(Quote(knownHosts), fixed, " " + JoinSpaces(fixed));
    var hosts := ["-o", "UserKnownHostsFile=" + Quote(knownHosts)] + fixed;
    FrontText(Quote(port), Quote(keyPath), hosts, " " + JoinSpaces(hosts));
  }

  lemma Listed(p: string, k: string, h: string, c: string, b: string, t: string)
    ensures ["ssh"] + (["-p", p] + (["-i", k] + (["-o", h] + (["-o", c] + (["-o", b] + [t, "-s", "sftp"])))))
            == ["ssh", "-p", p, "-i", k, "-o", h, "-o", c, "-o", b, t, "-s", "sftp"]
  {
  }

  lemma SftpWordTexts(port: string, keyPath: string, knownHosts: string, target: string)
    ensures CommandText(SftpWords(port, keyPath, knownHosts, target)) ==
              JoinSpaces(["ssh", "-p", Quote(port), "-i", Quote(keyPath), "-o", "UserKnownHostsFile=" + Quote(knownHosts),
                          "-o", "StrictHostKeyChecking=yes", "-o", "BatchMode=yes", Quote(target), "-s", "sftp"])
  {
    var words := SftpWords(port, keyPath, knownHosts, target);
    var texts := ["ssh", "-p", Quote(port), "-i", Quote(keyPath), "-o", "UserKnownHostsFile=" + Quote(knownHosts),
                  "-o", "StrictHostKeyChecking=yes", "-o", "BatchMode=yes", Quote(target), "-s", "sftp"];
    forall i | 0 <= i < |words|
      ensures WordText(words[i]) == texts[i]
    {
      if i != 6 {
        OneWordText(words[i][0]);
        assert words[i] == [words[i][0]];
      } else {
        assert words[6][1..] == [Quoted(knownHosts)];
        OneWordText(Quoted(knownHosts));
      }
    }
    CommandIsJoined(words, texts);
  }

  /** The quoted words, spelled out by that format, are the command's words. */
  lemma SftpText(port: string, keyPath: string, knownHosts: string, target: string)
    ensures CommandText(SftpWords(port, keyPath, knownHosts, target)) == SftpFormat(port, keyPath, knownHosts, target)
  {
    SftpWordTexts(port, keyPath, knownHosts, target);
    Listed(Quote(port), Quote(keyPath), "UserKnownHostsFile=" + Quote(knownHosts), "StrictHostKeyChecking=yes",
           "BatchMode=yes", Quote(target));
    SftpTexts(port, keyPath, knownHosts, target);
  }

  lemma OneWordText(p: Piece)
    ensures WordText([p]) == PieceText(p)
  {
    assert WordText([p]) == PieceText(p) + WordText([]);
  }

  lemma OnePiece(p: Piece)
    ensures Meaning([p]) == p.text
  {
    assert Meaning([p]) == p.text + "";
  }

  lemma FixedWords()
    ensures AllOrdinary("ssh") && AllOrdinary("-p") && AllOrdinary("-i") && AllOrdinary("-o")
    ensures AllOrdinary("-s") && AllOrdinary("sftp") && AllOrdinary("BatchMode=yes")
    ensures AllOrdinary("UserKnownHostsFile=") && AllOrdinary("StrictHostKeyChecking=yes")
  {
  }

  lemma OneWordOk(p: Piece)
    requires PieceOk(p)
    ensures WordOk([p])
  {
  }

  lemma SftpWordsOk(port: string, keyPath: string, knownHosts: string, target: string)
    ensures forall w | w in SftpWords(port, keyPath, knownHosts, target) :: WordOk(w)
  {
    FixedWords();
    var words := SftpWords(port, keyPath, knownHosts, target);
    forall i | 0 <= i < |words|
      ensures WordOk(words[i])
    {
      if i != 6 {
        OneWordOk(words[i][0]);
        assert words[i] == [words[i][0]];
      }
    }
  }

  lemma SftpMeanings(port: string, keyPath: string, knownHosts: string, target: string)
    ensures Meanings(SftpWords(port, keyPath, knownHosts, target)) ==
              ["ssh", "-p", port, "-i", keyPath, "-o", "UserKnownHostsFile=" + knownHosts, "-o",
               "StrictHostKeyChecking=yes", "-o", "BatchMode=yes", target, "-s", "sftp"]
  {
    var words := SftpWords(port, keyPath, knownHosts, target);
    forall i | 0 <= i < |words| && i != 6
      ensures Meaning(words[i]) == words[i][0].text
    {
      OnePiece(words[i][0]);
      assert words[i] == [words[i][0]];
    }
    assert words[6][1..] == [Quoted(knownHosts)];
    OnePiece(Quoted(knownHosts));
  }

  /** The ssh command runs with exactly the given port, key, known-hosts file and
      target, each as one argument or the rest of one, whatever they contain. */
  lemma SftpCommandArguments(port: string, keyPath: string, knownHosts: string, target: string)
    ensures Tokenize(SftpFormat(port, keyPath, knownHosts, target)) ==
              Some(["ssh", "-p", port, "-i", keyPath, "-o", "UserKnownHostsFile=" + knownHosts, "-o",
                    "StrictHostKeyChecking=yes", "-o", "BatchMode=yes", target, "-s", "sftp"])
  {
    SftpText(port, keyPath, knownHosts, target);
    SftpWordsOk(port, keyPath, knownHosts, target);
    SftpMeanings(port, keyPath, knownHosts, target);
    CommandRoundTrip(SftpWords(port, keyPath, knownHosts, target));
  }
}
