/** The words and signs of the model as they are typed. */
module Characters {
  import opened Units
  import Scalars
  import Strings
  import StrictJson
  import Toml
  import Yaml
  import FileTree
  import Reserved
  import Workspace
  import Rows

  function Typed(s: string): (text: Text)
    requires forall i :: 0 <= i < |s| ==> s[i] < '\U{FFFF}'
    ensures |text| == |s|
  {
    seq(|s|, i requires 0 <= i < |s| => s[i] as int)
  }

  lemma Signs()
    ensures [TAB, LF, CR, SPACE] == Typed("\t\n\r ")
    ensures [QUOTE, BACKSLASH, SLASH, STAR, COMMA, COLON, DOT, PLUS, MINUS] == Typed("\"\\/*,:.+-")
    ensures [LBRACE, RBRACE, LBRACKET, RBRACKET, ZERO, NINE, LOWER_E, UPPER_E] == Typed("{}[]09eE")
    ensures [Toml.HASH, Toml.EQUALS] == Typed("#=")
    ensures [Yaml.HASH, Yaml.DASH, Yaml.APOSTROPHE, Yaml.UNDERSCORE, Yaml.DOLLAR] == Typed("#-'_$")
    ensures [Strings.LOWER_B, Strings.LOWER_F, Strings.LOWER_N, Strings.LOWER_R, Strings.LOWER_T, Strings.LOWER_U] == Typed("bfnrtu")
  {
  }

  lemma Words()
    ensures Scalars.TRUE == Typed("true") && Scalars.FALSE == Typed("false") && Scalars.NULL == Typed("null")
    ensures Toml.MELRA == Typed("mcp_servers.melra") && Toml.ENV == Typed(".env")
    ensures Toml.COMMAND == Typed("command") && Toml.ARGS == Typed("args")
    ensures FileTree.UP == Typed("..") && Workspace.GIT == Typed(".git")
    ensures Reserved.DESCRIPTORS == [Typed("dev"), Typed("fd")]
  {
    assert Reserved.DESCRIPTORS[0] == Typed("dev") && Reserved.DESCRIPTORS[1] == Typed("fd");
  }

  // ----- MELRA's tables -----

  /** A setting as the tables hold it. */
  function Set(key: Text, value: Text): Text {
    key + Typed(" = ") + value
  }

  /** Strings between brackets, with a comma and a space between two. */
  function Listing(list: seq<Text>): Text {
    Typed("[") + Commas(list) + Typed("]")
  }

  function Commas(list: seq<Text>): Text {
    if list == [] then []
    else if |list| == 1 then Strings.Quote(list[0])
    else Strings.Quote(list[0]) + Typed(", ") + Commas(list[1..])
  }

  lemma {:induction false} ListIs(list: seq<Text>)
    ensures StrictJson.ListRest(list) == Commas(list) + [RBRACKET]
  {
    hide Strings.Quote;
    if list != [] {
      ListIs(list[1..]);
      Comma();
      if |list| == 1 {
        assert list[1..] == [];
      }
    }
  }

  lemma Comma()
    ensures Typed(", ") == [COMMA, SPACE] && Typed("[") == [LBRACKET] && Typed("]") == [RBRACKET]
  {
  }

  lemma {:induction false} EnvIs(env: seq<(Text, Text)>)
    ensures Toml.EnvRows(env) == seq(|env|, i requires 0 <= i < |env| => Set(env[i].0, Strings.Quote(env[i].1)))
  {
    hide Strings.Quote;
    if env != [] {
      EnvIs(env[1..]);
      SetIs(env[0].0, Strings.Quote(env[0].1));
    }
  }

  lemma SetIs(key: Text, value: Text)
    ensures Toml.Setting(key, value) == Set(key, value)
  {
    assert Typed(" = ") == [SPACE, Toml.EQUALS, SPACE];
  }

  /** The tables line by line. */
  lemma TablesAre(entry: Toml.Entry)
    ensures Toml.CodexToml(entry) == Rows.Join(
      [ Typed("[mcp_servers.melra]"),
        Set(Typed("command"), Strings.Quote(entry.command)),
        Set(Typed("args"), Listing(entry.args)),
        [],
        Typed("[mcp_servers.melra.env]") ]
      + seq(|entry.env|, i requires 0 <= i < |entry.env| => Set(entry.env[i].0, Strings.Quote(entry.env[i].1)))
      + [[]])
  {
    TableRowsAre(entry);
  }

  lemma TableRowsAre(entry: Toml.Entry)
    ensures Toml.TableRows(entry) ==
      [ Typed("[mcp_servers.melra]"),
        Set(Typed("command"), Strings.Quote(entry.command)),
        Set(Typed("args"), Listing(entry.args)),
        [],
        Typed("[mcp_servers.melra.env]") ]
      + seq(|entry.env|, i requires 0 <= i < |entry.env| => Set(entry.env[i].0, Strings.Quote(entry.env[i].1)))
      + [[]]
  {
    hide Strings.Quote, Toml.EnvRows, Set, Toml.Setting, Toml.Bracketed, Commas;
    Words();
    Headers();
    Comma();
    ListIs(entry.args);
    assert StrictJson.List(entry.args) == Listing(entry.args);
    SetIs(Toml.COMMAND, Strings.Quote(entry.command));
    SetIs(Toml.ARGS, StrictJson.List(entry.args));
    EnvIs(entry.env);
  }

  lemma Headers()
    ensures Toml.Bracketed(Toml.MELRA) == Typed("[mcp_servers.melra]")
    ensures Toml.Bracketed(Toml.MELRA + Toml.ENV) == Typed("[mcp_servers.melra.env]")
  {
  }
}
