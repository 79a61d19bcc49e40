/** The Ansible inventory as `RunnerManager` sees it: `load_servers` turns its text into
    server records, and the configuration page edits its lines to add or remove a host. */
module Inventory {
  import opened PyStr

  /** `load_servers` always records the status `'unknown'`; merging a probed status into
      a record happens in the HTTP layer, which is not part of this model. */
  datatype ServerState = Unknown

  /** One record of `load_servers`: `{'name', 'host', 'status'}`. */
  datatype Server = Server(name: string, host: string, status: ServerState)

  /** What one inventory line contributes: nothing, a record, or the `IndexError` of
      `parts[1].split('=')[1]`, which ends the whole parse. */
  datatype LineParse = Skip | Record(server: Server) | Halt

  function ParseInventoryLine(line: string): LineParse {
    if Contains(line, "ansible_host=") && !StartsWith(line, "#") then
      var parts := Words(line);
      if |parts| >= 2 then
        match Field(parts[1], '=', 1)
        case Some(host) => Record(Server(parts[0], host, Unknown))
        case None => Halt
      else Skip
    else Skip
  }

  /** The records of `lines`, in order, up to the first line that halts the parse. */
  function ParseServers(lines: seq<string>): seq<Server> {
    if lines == [] then []
    else
      match ParseInventoryLine(lines[0])
      case Skip => ParseServers(lines[1..])
      case Record(s) => [s] + ParseServers(lines[1..])
      case Halt => []
  }

  predicate Halts(lines: seq<string>) {
    exists i :: 0 <= i < |lines| && ParseInventoryLine(lines[i]).Halt?
  }

  /** `load_servers`: `None` is an inventory file that cannot be opened or read, which
      the source logs and answers with no servers. */
  method LoadServers(inventory: Option<string>) returns (servers: seq<Server>)
    ensures inventory.None? ==> servers == []
    ensures inventory.Some? ==> servers == ParseServers(Split(inventory.value, '\n'))
  {
    servers := [];
    if inventory.None? {
      return;
    }
    var lines := Split(inventory.value, '\n');
    var i := 0;
    while i < |lines|
      invariant 0 <= i <= |lines|
      invariant servers + ParseServers(lines[i..]) == ParseServers(lines)
    {
      var line := lines[i];
      assert lines[i..][1..] == lines[i + 1..];
      if Contains(line, "ansible_host=") && !StartsWith(line, "#") {
        var parts := Words(line);
        if |parts| >= 2 {
          var name := parts[0];
          var pieces := Split(parts[1], '=');
          if |pieces| < 2 {
            break;
          }
          var host := pieces[1];
          servers := servers + [Server(name, host, Unknown)];
        }
      }
      i := i + 1;
    }
    assert i < |lines| ==> ParseServers(lines[i..]) == [];
    assert i == |lines| ==> lines[i..] == [];
  }

  // ---------------------------------------------------------------------------
  // What load_servers promises

  /** Parsing is line by line and a halting line ends it: the records of two runs of
      lines are those of the first, followed by those of the second unless the first
      halted. */
  lemma {:induction false} ParseServersAppend(a: seq<string>, b: seq<string>)
    ensures ParseServers(a + b) == if Halts(a) then ParseServers(a) else ParseServers(a) + ParseServers(b)
  {
    if a == [] {
      assert a + b == b;
    } else {
      var p := ParseInventoryLine(a[0]);
      assert (a + b)[1..] == a[1..] + b;
      assert (a + b)[0] == a[0];
      ParseServersAppend(a[1..], b);
      match p
      case Halt =>
        assert Halts(a);
      case Skip =>
        assert ParseServers(a + b) == ParseServers(a[1..] + b);
        HaltsCons(a);
      case Record(s) =>
        assert ParseServers(a + b) == [s] + ParseServers(a[1..] + b);
        HaltsCons(a);
    }
  }

  /** A line that does not halt leaves the halting to the lines after it. */
  lemma HaltsCons(a: seq<string>)
    requires a != [] && !ParseInventoryLine(a[0]).Halt?
    ensures Halts(a) == Halts(a[1..])
  {
    if Halts(a) {
      var i :| 0 <= i < |a| && ParseInventoryLine(a[i]).Halt?;
      assert a[i] == a[1..][i - 1];
    }
    if Halts(a[1..]) {
      var i :| 0 <= i < |a[1..]| && ParseInventoryLine(a[1..][i]).Halt?;
      assert a[1..][i] == a[i + 1];
    }
  }

  /** A record comes from a non-comment line naming `ansible_host=`: its name is the line's
      first word, its host the text between the first and second `=` of the second word
      (whatever key that word has), and its status `Unknown`. */
  lemma RecordShape(line: string) returns (pre: string, rest: string)
    requires ParseInventoryLine(line).Record?
    ensures var s := ParseInventoryLine(line).server;
      Contains(line, "ansible_host=") && !StartsWith(line, "#") &&
      |Words(line)| >= 2 && s.name == Words(line)[0] &&
      Words(line)[1] == pre + "=" + s.host + rest && '=' !in pre && '=' !in s.host &&
      (rest == [] || rest[0] == '=') &&
      s.name != "" && NoSpace(s.name) && NoSpace(s.host) && s.status == Unknown
  {
    var w := Words(line)[1];
    SplitHasSecondIff(w, '=');
    pre, rest := SecondField(w, '=');
    var host := Field(w, '=', 1).value;
    assert forall k :: 0 <= k < |host| ==> host[k] == w[|pre| + 1 + k];
  }

  /** Every loaded record stems from a line of the inventory. */
  lemma {:induction false} ServerOrigin(lines: seq<string>, k: nat) returns (i: nat)
    requires k < |ParseServers(lines)|
    ensures i < |lines| && ParseInventoryLine(lines[i]) == Record(ParseServers(lines)[k])
    decreases |lines|, 1
  {
    if ParseInventoryLine(lines[0]).Record? {
      i := ServerOriginAtRecord(lines, k);
    } else {
      i := ServerOriginAtSkip(lines, k);
    }
  }

  lemma {:induction false} ServerOriginAtRecord(lines: seq<string>, k: nat) returns (i: nat)
    requires k < |ParseServers(lines)| && ParseInventoryLine(lines[0]).Record?
    ensures i < |lines| && ParseInventoryLine(lines[i]) == Record(ParseServers(lines)[k])
    decreases |lines|, 0
  {
    var tail := lines[1..];
    var rest := ParseServers(tail);
    var s := ParseInventoryLine(lines[0]).server;
    assert ParseServers(lines) == [s] + rest;
    if k == 0 {
      i := 0;
    } else {
      assert ParseServers(lines)[k] == rest[k - 1];
      var j := ServerOrigin(tail, k - 1);
      assert lines[j + 1] == tail[j];
      i := j + 1;
    }
  }

  lemma {:induction false} ServerOriginAtSkip(lines: seq<string>, k: nat) returns (i: nat)
    requires k < |ParseServers(lines)| && ParseInventoryLine(lines[0]).Skip?
    ensures i < |lines| && ParseInventoryLine(lines[i]) == Record(ParseServers(lines)[k])
    decreases |lines|, 0
  {
    var tail := lines[1..];
    assert ParseServers(lines) == ParseServers(tail);
    var j := ServerOrigin(tail, k);
    assert lines[j + 1] == tail[j];
    i := j + 1;
  }

  /** Conversely, every record line before the first halting line is loaded. */
  lemma RecordLineLoaded(lines: seq<string>, i: nat)
    requires i < |lines| && ParseInventoryLine(lines[i]).Record? && !Halts(lines[..i])
    ensures ParseInventoryLine(lines[i]).server in ParseServers(lines)
  {
    ParseServersAppend(lines[..i], lines[i..]);
    assert lines[..i] + lines[i..] == lines;
    assert lines[i..][0] == lines[i];
  }

  /** An inventory with no `ansible_host=` line loads no servers. */
  lemma {:induction false} NoHostLinesNoServers(lines: seq<string>)
    requires forall i :: 0 <= i < |lines| ==> !Contains(lines[i], "ansible_host=")
    ensures ParseServers(lines) == []
  {
    if lines != [] {
      NoHostLinesNoServers(lines[1..]);
    }
  }

  /** `name<sep>k1=v1 k2=v2`: an inventory line holding a host and two of its variables. */
  function KeyValueLine(name: string, sep: char, k1: string, v1: string, k2: string, v2: string): string {
    name + [sep] + k1 + "=" + v1 + " " + k2 + "=" + v2
  }

  lemma NoSpacePair(key: string, value: string)
    requires NoSpace(key) && NoSpace(value)
    ensures NoSpace(key + "=" + value)
  {
    var w := key + "=" + value;
    assert forall k :: 0 <= k < |w| ==>
      w[k] == if k < |key| then key[k] else if k == |key| then '=' else value[k - |key| - 1];
  }

  /** Such a line splits into its name and its two `key=value` words. */
  lemma KeyValueLineWords(name: string, sep: char, k1: string, v1: string, k2: string, v2: string)
    requires name != "" && NoSpace(name) && IsSpace(sep)
    requires k1 != "" && NoSpace(k1) && NoSpace(v1) && NoSpace(k2) && NoSpace(v2)
    ensures Words(KeyValueLine(name, sep, k1, v1, k2, v2)) == [name, k1 + "=" + v1, k2 + "=" + v2]
  {
    var w1 := k1 + "=" + v1;
    var w2 := k2 + "=" + v2;
    NoSpacePair(k1, v1);
    NoSpacePair(k2, v2);
    assert KeyValueLine(name, sep, k1, v1, k2, v2) == name + [sep] + w1 + " " + w2;
    WordsOfThree(name, sep, w1, w2);
  }

  /** Such a line names `ansible_host=` when one of its keys is `ansible_host`, and is no
      comment when its name does not start with `#`. */
  lemma KeyValueLineNamesHost(name: string, sep: char, k1: string, v1: string, k2: string, v2: string)
    requires name != "" && name[0] != '#'
    requires k1 == "ansible_host" || k2 == "ansible_host"
    ensures var line := KeyValueLine(name, sep, k1, v1, k2, v2);
      Contains(line, "ansible_host=") && !StartsWith(line, "#")
  {
    var line := KeyValueLine(name, sep, k1, v1, k2, v2);
    if k1 == "ansible_host" {
      var tail := v1 + " " + k2 + "=" + v2;
      assert line == (name + [sep]) + "ansible_host=" + tail;
      ContainsMiddle(name + [sep], "ansible_host=", tail);
    } else {
      var head := name + [sep] + k1 + "=" + v1 + " ";
      assert line == head + "ansible_host=" + v2;
      ContainsMiddle(head, "ansible_host=", v2);
    }
    assert line[0] == name[0];
  }

  /** A line `name<sep>k1=v1 k2=v2` naming `ansible_host` loads as server `name` with
      host `v1`: the host is the value of the second word, whatever its key. */
  lemma ParseKeyValueLine(name: string, sep: char, k1: string, v1: string, k2: string, v2: string)
    requires name != "" && NoSpace(name) && name[0] != '#' && IsSpace(sep)
    requires k1 == "ansible_host" || k2 == "ansible_host"
    requires k1 != "" && NoSpace(k1) && NoSpace(v1) && NoSpace(k2) && NoSpace(v2)
    requires '=' !in k1 && '=' !in v1
    ensures ParseInventoryLine(KeyValueLine(name, sep, k1, v1, k2, v2)) == Record(Server(name, v1, Unknown))
  {
    KeyValueLineWords(name, sep, k1, v1, k2, v2);
    KeyValueLineNamesHost(name, sep, k1, v1, k2, v2);
    FieldOfPair(k1, v1);
  }

  /** The host is taken from the second word whatever its key: with `ansible_user=`
      before `ansible_host=`, the user name becomes the host. */
  lemma HostFromSecondWord(name: string, user: string, host: string)
    requires name != "" && NoSpace(name) && name[0] != '#'
    requires NoSpace(user) && '=' !in user && NoSpace(host)
    ensures ParseInventoryLine(KeyValueLine(name, ' ', "ansible_user", user, "ansible_host", host))
      == Record(Server(name, user, Unknown))
  {
    ParseKeyValueLine(name, ' ', "ansible_user", user, "ansible_host", host);
  }

  // ---------------------------------------------------------------------------
  // Adding a server (the add branch of `config_page`)

  /** `line.strip() == '[runner-hosts]'` */
  predicate IsSectionHeader(line: string) {
    Strip(line) == "[runner-hosts]"
  }

  /** A line skipped after the header: a comment or a blank line. */
  predicate IsCommentOrBlank(line: string) {
    StartsWith(Strip(line), "#") || Strip(line) == ""
  }

  /** The inventory line written for a new server, without its newline. */
  function EntryText(name: string, host: string, user: string): string {
    KeyValueLine(name, ' ', "ansible_host", host, "ansible_user", user)
  }

  datatype AddOutcome = Added | SectionMissing | NotRequested

  /** `h` is the first `[runner-hosts]` header and `p` the first line after it that is
      neither a comment nor blank (or the end of the file). */
  predicate InsertionPoint(lines: seq<string>, h: nat, p: nat) {
    h < p <= |lines| && IsSectionHeader(lines[h]) &&
    (forall i :: 0 <= i < h ==> !IsSectionHeader(lines[i])) &&
    (forall i :: h < i < p ==> IsCommentOrBlank(lines[i])) &&
    (p == |lines| || !IsCommentOrBlank(lines[p]))
  }

  /** The search of the add branch of `config_page`: the first `[runner-hosts]` header,
      then past the comments and blank lines that follow it. */
  method FindInsertionPoint(lines: seq<string>) returns (found: bool, h: nat, p: nat)
    ensures found <==> exists i :: 0 <= i < |lines| && IsSectionHeader(lines[i])
    ensures found ==> InsertionPoint(lines, h, p)
  {
    h := 0;
    while h < |lines| && !IsSectionHeader(lines[h])
      invariant 0 <= h <= |lines|
      invariant forall i :: 0 <= i < h ==> !IsSectionHeader(lines[i])
    {
      h := h + 1;
    }
    if h == |lines| {
      return false, h, h;
    }
    p := h + 1;
    while p < |lines| && IsCommentOrBlank(lines[p])
      invariant h < p <= |lines|
      invariant forall i :: h < i < p ==> IsCommentOrBlank(lines[i])
    {
      p := p + 1;
    }
    found := true;
  }

  /** The add branch of `config_page` on the inventory's lines (as `readlines` gives them,
      each keeping its newline): with a name and a host, the entry goes after the first
      `[runner-hosts]` header and the comments and blank lines that follow it. */
  method AddServer(lines: seq<string>, name: string, host: string, user: string)
    returns (result: seq<string>, outcome: AddOutcome)
    ensures outcome == NotRequested <==> name == "" || host == ""
    ensures outcome == SectionMissing <==>
      name != "" && host != "" && forall i :: 0 <= i < |lines| ==> !IsSectionHeader(lines[i])
    ensures outcome != Added ==> result == lines
    ensures outcome == Added ==>
      exists h: nat, p: nat :: (InsertionPoint(lines, h, p) &&
        result == lines[..p] + [EntryText(name, host, user) + "\n"] + lines[p..])
  {
    if name == "" || host == "" {
      return lines, NotRequested;
    }
    var found, h, p := FindInsertionPoint(lines);
    if !found {
      return lines, SectionMissing;
    }
    result := lines[..p] + [EntryText(name, host, user) + "\n"] + lines[p..];
    outcome := Added;
  }

  /** The insertion point is unique, so the contract of `AddServer` fixes its result. */
  lemma InsertionPointUnique(lines: seq<string>, h: nat, p: nat, h': nat, p': nat)
    requires InsertionPoint(lines, h, p) && InsertionPoint(lines, h', p')
    ensures h == h' && p == p'
  {
  }

  /** The entry written for a new server loads back as that server, provided name, host
      and user are single words, the name does not start a comment and the host holds
      no `=`. */
  lemma EntryParsesBack(name: string, host: string, user: string)
    requires name != "" && NoSpace(name) && name[0] != '#'
    requires host != "" && NoSpace(host) && '=' !in host
    requires NoSpace(user)
    ensures ParseInventoryLine(EntryText(name, host, user)) == Record(Server(name, host, Unknown))
  {
    ParseKeyValueLine(name, ' ', "ansible_host", host, "ansible_user", user);
  }

  // ---------------------------------------------------------------------------
  // Removing a server (the remove branch of `config_page`)

  /** `line.strip().startswith(name + ' ') or line.strip() == name` */
  predicate NamesServer(line: string, name: string) {
    StartsWith(Strip(line), name + " ") || Strip(line) == name
  }

  /** The lines kept when removing `name`, in their original order. */
  function RemoveServerLines(lines: seq<string>, name: string): seq<string> {
    if lines == [] then []
    else if NamesServer(lines[0], name) then RemoveServerLines(lines[1..], name)
    else [lines[0]] + RemoveServerLines(lines[1..], name)
  }

  /** Removal works line by line (order kept), so it distributes over concatenation. */
  lemma {:induction false} RemoveAppend(a: seq<string>, b: seq<string>, name: string)
    ensures RemoveServerLines(a + b, name) == RemoveServerLines(a, name) + RemoveServerLines(b, name)
  {
    if a == [] {
      assert a + b == b;
    } else {
      assert (a + b)[1..] == a[1..] + b;
      RemoveAppend(a[1..], b, name);
    }
  }

  /** A line is kept exactly when it was in the inventory and does not name the server. */
  lemma {:induction false} RemoveMembership(lines: seq<string>, name: string, x: string)
    ensures x in RemoveServerLines(lines, name) <==> x in lines && !NamesServer(x, name)
  {
    if lines != [] {
      RemoveMembership(lines[1..], name, x);
      assert x in lines <==> x == lines[0] || x in lines[1..];
    }
  }

  /** Removing twice is removing once. */
  lemma {:induction false} RemoveIdempotent(lines: seq<string>, name: string)
    ensures RemoveServerLines(RemoveServerLines(lines, name), name) == RemoveServerLines(lines, name)
  {
    if lines != [] {
      RemoveIdempotent(lines[1..], name);
    }
  }

  lemma EntryNamesServer(name: string, host: string, user: string)
    requires name != "" && NoSpace(name)
    ensures NamesServer(EntryText(name, host, user) + "\n", name)
  {
    var s := EntryText(name, host, user) + "\n";
    var lo := StripSlice(s);
    var r := Strip(s);
    assert !IsSpace(s[0]) by { assert s[0] == name[0]; }
    assert lo == 0;
    assert !IsSpace(s[|name| + 1]) by { assert s[|name| + 1] == 'a'; }
    assert |r| > |name| + 1;
    assert r[..|name| + 1] == s[..|name| + 1] == name + " ";
  }

  /** Removing a server that was just added gives the lines as they would be had it never
      been added. */
  lemma AddThenRemove(lines: seq<string>, h: nat, p: nat, name: string, host: string, user: string)
    requires InsertionPoint(lines, h, p)
    requires name != "" && NoSpace(name)
    ensures RemoveServerLines(lines[..p] + [EntryText(name, host, user) + "\n"] + lines[p..], name)
      == RemoveServerLines(lines, name)
  {
    var entry := EntryText(name, host, user) + "\n";
    EntryNamesServer(name, host, user);
    RemoveNamedLine(entry, name);
    RemoveInserted(lines, p, entry, name);
  }

  lemma RemoveNamedLine(line: string, name: string)
    requires NamesServer(line, name)
    ensures RemoveServerLines([line], name) == []
  {
    assert [line][1..] == [];
  }

  /** Removal drops an inserted line it removes on its own, wherever it was inserted. */
  lemma RemoveInserted(lines: seq<string>, p: nat, entry: string, name: string)
    requires p <= |lines| && RemoveServerLines([entry], name) == []
    ensures RemoveServerLines(lines[..p] + [entry] + lines[p..], name) == RemoveServerLines(lines, name)
  {
    var before, after := lines[..p], lines[p..];
    var rb, ra := RemoveServerLines(before, name), RemoveServerLines(after, name);
    assert lines[..p] + [entry] + lines[p..] == (before + [entry]) + after;
    assert RemoveServerLines(before + [entry], name) == rb by {
      RemoveAppend(before, [entry], name);
      assert rb + [] == rb;
    }
    assert RemoveServerLines((before + [entry]) + after, name) == rb + ra by {
      RemoveAppend(before + [entry], after, name);
    }
    assert RemoveServerLines(lines, name) == rb + ra by {
      RemoveAppend(before, after, name);
      assert before + after == lines;
    }
  }

  /** A line whose name is followed by a tab and then a non-blank character does not
      name that server for removal. */
  lemma TabAfterNameNotNamed(name: string, rest: string)
    requires name != "" && !IsSpace(name[0]) && rest != [] && !IsSpace(rest[0])
    ensures !NamesServer(name + "\t" + rest, name)
  {
    var full := name + "\t" + rest;
    var lo := StripSlice(full);
    var r := Strip(full);
    assert !IsSpace(full[0]) by { assert full[0] == name[0]; }
    assert lo == 0;
    assert !IsSpace(full[|name| + 1]) by { assert full[|name| + 1] == rest[0]; }
    assert |r| > |name| + 1;
    assert r[|name|] == '\t';
  }

  /** An entry whose name is followed by a tab instead of a space loads like any other. */
  lemma TabSeparatedEntryLoads(name: string, host: string, user: string)
    requires name != "" && NoSpace(name) && name[0] != '#'
    requires host != "" && NoSpace(host) && '=' !in host
    requires NoSpace(user)
    ensures ParseInventoryLine(KeyValueLine(name, '\t', "ansible_host", host, "ansible_user", user))
      == Record(Server(name, host, Unknown))
  {
    ParseKeyValueLine(name, '\t', "ansible_host", host, "ansible_user", user);
  }

  /** Removal matches `name` followed by a space only: the tab-separated entry of
      `TabSeparatedEntryLoads`, which loads as server `name`, survives removing `name`. */
  lemma TabSeparatedEntryNotRemoved(name: string, host: string, user: string)
    requires name != "" && NoSpace(name)
    ensures var full := KeyValueLine(name, '\t', "ansible_host", host, "ansible_user", user) + "\n";
      RemoveServerLines([full], name) == [full]
  {
    var full := KeyValueLine(name, '\t', "ansible_host", host, "ansible_user", user) + "\n";
    var rest := "ansible_host" + "=" + host + " " + "ansible_user" + "=" + user + "\n";
    assert full == name + "\t" + rest && rest[0] == 'a';
    TabAfterNameNotNamed(name, rest);
    assert RemoveServerLines([full][1..], name) == [];
  }

  // ---------------------------------------------------------------------------
  // Writing the edited lines back (`f.writelines(lines)`)

  /** The entry line has its newline at its end and nowhere else. */
  lemma EntryIsLine(name: string, host: string, user: string)
    requires '\n' !in name && '\n' !in host && '\n' !in user
    ensures var entry := EntryText(name, host, user) + "\n";
      IsLine(entry) && EndsWithNewline(entry)
  {
    var text := EntryText(name, host, user);
    assert '\n' !in text;
    assert (text + "\n")[..|text|] == text;
  }

  /** As written: when the last line of the file has no newline and the entry goes at the
      end, the entry is glued onto that line. Reading the file back gives no more lines
      than before, and the last one is the old last line followed by the entry. */
  lemma AddAtEndGluesEntry(lines: seq<string>, h: nat, name: string, host: string, user: string)
    requires WellFormedLines(lines) && InsertionPoint(lines, h, |lines|)
    requires !EndsWithNewline(lines[|lines| - 1])
    requires '\n' !in name && '\n' !in host && '\n' !in user
    ensures var entry := EntryText(name, host, user) + "\n";
      var back := ReadLinesOf(WriteLines(lines[..|lines|] + [entry] + lines[|lines|..]));
      |back| == |lines| && back[|lines| - 1] == lines[|lines| - 1] + entry
  {
    var entry := EntryText(name, host, user) + "\n";
    EntryIsLine(name, host, user);
    var init, last := lines[..|lines| - 1], lines[|lines| - 1];
    assert lines[..|lines|] + [entry] + lines[|lines|..] == init + [last] + [entry];
    GlueLast(init, last, entry);
  }

  /** What the glued line loads as when the last line was the header itself: it is no
      longer a header, and it loads as a server whose name is the header followed by the
      entry's name. The section is gone, so a later add finds no `[runner-hosts]`. */
  lemma GluedHeaderLoadsAsServer(name: string, host: string, user: string)
    requires name != "" && NoSpace(name) && NoSpace(host) && '=' !in host && NoSpace(user)
    ensures var glued := "[runner-hosts]" + EntryText(name, host, user);
      !IsSectionHeader(glued) && ParseInventoryLine(glued) == Record(Server("[runner-hosts]" + name, host, Unknown))
  {
    var header := "[runner-hosts]";
    assert NoSpace(header) && header[0] == '[';
    GluedLineLoads(header, name, host, user);
    GluedLineUnstripped(header, name, host, user);
    UnstrippedNotHeader(header + EntryText(name, host, user));
  }

  /** An entry glued onto a word that starts neither with `#` nor with whitespace loads
      as a server named the word followed by the entry's name. */
  lemma GluedLineLoads(pre: string, name: string, host: string, user: string)
    requires pre != "" && NoSpace(pre) && pre[0] != '#'
    requires name != "" && NoSpace(name) && NoSpace(host) && '=' !in host && NoSpace(user)
    ensures ParseInventoryLine(pre + EntryText(name, host, user)) == Record(Server(pre + name, host, Unknown))
  {
    var named := pre + name;
    assert pre + EntryText(name, host, user) == EntryText(named, host, user) by {
      KeyValueLinePrefix(pre, name, ' ', "ansible_host", host, "ansible_user", user);
    }
    assert NoSpace(named) && named[0] == pre[0] by { NoSpaceConcat(pre, name); }
    ParseKeyValueLine(named, ' ', "ansible_host", host, "ansible_user", user);
  }

  /** Such a glued line has no whitespace at either end, and is longer than the word. */
  lemma GluedLineUnstripped(pre: string, name: string, host: string, user: string)
    requires pre != "" && !IsSpace(pre[0]) && NoSpace(user)
    ensures var glued := pre + EntryText(name, host, user);
      |glued| > |pre| + |name| && !IsSpace(glued[0]) && !IsSpace(glued[|glued| - 1])
  {
    var glued := pre + EntryText(name, host, user);
    assert glued[0] == pre[0];
    if user != "" {
      assert glued[|glued| - 1] == user[|user| - 1];
    }
  }

  /** A line longer than the header, with no whitespace at either end, is no header. */
  lemma UnstrippedNotHeader(line: string)
    requires |line| > |"[runner-hosts]"| && !IsSpace(line[0]) && !IsSpace(line[|line| - 1])
    ensures !IsSectionHeader(line)
  {
  }

  /** When the last line was a comment, the glued line is a comment too: the entry is
      not loaded at all. */
  lemma GluedCommentDropsEntry(comment: string, name: string, host: string, user: string)
    requires StartsWith(comment, "#")
    ensures ParseInventoryLine(comment + EntryText(name, host, user)) == Skip
  {
    var glued := comment + EntryText(name, host, user);
    assert glued[..1] == comment[..1];
  }

  lemma KeyValueLinePrefix(pre: string, name: string, sep: char, k1: string, v1: string, k2: string, v2: string)
    ensures pre + KeyValueLine(name, sep, k1, v1, k2, v2) == KeyValueLine(pre + name, sep, k1, v1, k2, v2)
  {
  }

  /** The lines before the insertion point, the last of them given a newline when the
      entry goes at the end of a file that does not end with one. */
  function TerminateBefore(lines: seq<string>, p: nat): (r: seq<string>)
    requires 0 < p <= |lines|
    ensures |r| == p && r[..p - 1] == lines[..p - 1]
    ensures r[p - 1] == lines[p - 1] || (p == |lines| && r[p - 1] == lines[p - 1] + "\n")
  {
    if p == |lines| && !EndsWithNewline(lines[p - 1]) then lines[..p - 1] + [lines[p - 1] + "\n"]
    else lines[..p]
  }

  /** The add branch with the missing newline supplied: the entry is always a line of its
      own. */
  method AddServerTerminated(lines: seq<string>, name: string, host: string, user: string)
    returns (result: seq<string>, outcome: AddOutcome)
    ensures outcome == NotRequested <==> name == "" || host == ""
    ensures outcome == SectionMissing <==>
      name != "" && host != "" && forall i :: 0 <= i < |lines| ==> !IsSectionHeader(lines[i])
    ensures outcome != Added ==> result == lines
    ensures outcome == Added ==>
      exists h: nat, p: nat :: (InsertionPoint(lines, h, p) &&
        result == TerminateBefore(lines, p) + [EntryText(name, host, user) + "\n"] + lines[p..])
  {
    if name == "" || host == "" {
      return lines, NotRequested;
    }
    var found, h, p := FindInsertionPoint(lines);
    if !found {
      return lines, SectionMissing;
    }
    var before := lines[..p];
    if p == |lines| && !EndsWithNewline(lines[p - 1]) {
      before := lines[..p - 1] + [lines[p - 1] + "\n"];
    }
    result := before + [EntryText(name, host, user) + "\n"] + lines[p..];
    outcome := Added;
  }

  /** With the newline supplied, the file read back holds exactly the edited lines: the
      entry is the line at the insertion point and the file has one line more. */
  lemma AddedEntryIsReadBack(lines: seq<string>, h: nat, p: nat, name: string, host: string, user: string)
    requires WellFormedLines(lines) && InsertionPoint(lines, h, p)
    requires '\n' !in name && '\n' !in host && '\n' !in user
    ensures var entry := EntryText(name, host, user) + "\n";
      var result := TerminateBefore(lines, p) + [entry] + lines[p..];
      ReadLinesOf(WriteLines(result)) == result && |result| == |lines| + 1 && result[p] == entry
  {
    var entry := EntryText(name, host, user) + "\n";
    var before := TerminateBefore(lines, p);
    var result := before + [entry] + lines[p..];
    EntryIsLine(name, host, user);
    forall i | 0 <= i < |result|
      ensures IsLine(result[i]) && (i < |result| - 1 ==> EndsWithNewline(result[i]))
    {
      if i < p - 1 {
        assert result[i] == before[..p - 1][i] == lines[i];
      } else if i == p - 1 {
        TerminatedLine(lines, p);
      } else if i == p {
        assert result[i] == entry;
      } else {
        assert result[i] == lines[i - 1];
      }
    }
    ReadWriteLines(result);
  }

  /** The last line before the insertion point is a line, and ends with a newline. */
  lemma TerminatedLine(lines: seq<string>, p: nat)
    requires WellFormedLines(lines) && 0 < p <= |lines|
    ensures var l := TerminateBefore(lines, p)[p - 1]; IsLine(l) && EndsWithNewline(l)
  {
    var l := lines[p - 1];
    if p == |lines| && !EndsWithNewline(l) {
      var t := l + "\n";
      assert '\n' !in l;
      assert t[..|t| - 1] == l;
    }
  }
}
