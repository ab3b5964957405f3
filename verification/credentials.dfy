// Which keys the redactor takes for credentials, and what it writes in place of their values.

module CredentialKeys {
  import opened Options
  import opened Texts
  import opened Redactor

  const NAMES := ["password", "secret", "token", "apikey", "accesstoken", "privatekey"]

  predicate IsLetterOrDigit(c: char) {
    'a' <= c <= 'z' || 'A' <= c <= 'Z' || '0' <= c <= '9'
  }

  /** The last letters and digits of the key spell the name, in any letter case and with anything else in between or
      after them. */
  predicate SpellsAtEnd(key: string, name: string)
    decreases |key|
  {
    if name == "" then true
    else if key == "" then false
    else
      var c := key[|key| - 1];
      if IsLetterOrDigit(c) then SameLetter(c, name[|name| - 1]) && SpellsAtEnd(key[..|key| - 1], name[..|name| - 1])
      else SpellsAtEnd(key[..|key| - 1], name)
  }

  lemma {:induction false} NormalisedSnoc(key: string, c: char)
    ensures Normalised(key + [c]) == Normalised(key) + (if IsAlphanumeric(c) then [LowerChar(c)] else [])
    decreases |key|
  {
    hide IsAlphanumeric, LowerChar, Normalised;
    if key == "" {
      NormalisedCons(c, "");
      assert key + [c] == [c] + "";
    } else {
      NormalisedCons(key[0], key[1..] + [c]);
      NormalisedCons(key[0], key[1..]);
      assert key + [c] == [key[0]] + (key[1..] + [c]) && key == [key[0]] + key[1..];
      NormalisedSnoc(key[1..], c);
    }
  }

  lemma NormalisedCons(c: char, rest: string)
    ensures Normalised([c] + rest) == (if IsAlphanumeric(c) then [LowerChar(c)] else []) + Normalised(rest)
    ensures Normalised("") == ""
  {
    hide IsAlphanumeric, LowerChar;
    assert ([c] + rest)[1..] == rest;
  }

  predicate IsLowerName(name: string) {
    forall c | c in name :: LowerChar(c) == c
  }

  lemma EndsWithSnoc(s: string, c: char, name: string)
    ensures EndsWith(s + [c], name) <==> name == "" || (name[|name| - 1] == c && EndsWith(s, name[..|name| - 1]))
  {
    if name != "" && |name| <= |s| + 1 {
      var n, rest := |name|, name[..|name| - 1];
      assert name == rest + [name[n - 1]];
      assert (s + [c])[|s| + 1 - n..] == s[|s| + 1 - n..] + [c];
    }
  }

  lemma {:induction false} SpellsExactly(key: string, name: string)
    requires IsLowerName(name)
    ensures EndsWith(Normalised(key), name) <==> SpellsAtEnd(key, name)
    decreases |key|
  {
    hide IsAlphanumeric, IsLetterOrDigit, LowerChar, EndsWith, Normalised;
    if key == "" {
      NothingNormalised(name);
    } else if name != "" {
      var shorter, c := key[..|key| - 1], key[|key| - 1];
      assert key == shorter + [c];
      NormalisedSnoc(shorter, c);
      SameAlphabet(c);
      if IsAlphanumeric(c) {
        EndsWithSnoc(Normalised(shorter), LowerChar(c), name);
        SameLetterIsLower(c, name[|name| - 1]);
        SpellsExactly(shorter, name[..|name| - 1]);
      } else {
        assert Normalised(shorter) + [] == Normalised(shorter);
        SpellsExactly(shorter, name);
      }
    } else {
      AlwaysEndsWithNothing(Normalised(key));
    }
  }

  lemma SameAlphabet(c: char)
    ensures IsAlphanumeric(c) <==> IsLetterOrDigit(c)
  {
  }

  lemma NothingNormalised(name: string)
    ensures Normalised("") == "" && (EndsWith("", name) <==> name == "")
  {
  }

  lemma AlwaysEndsWithNothing(s: string)
    ensures EndsWith(s, "")
  {
  }

  lemma NamesAreLower()
    ensures forall name | name in NAMES :: IsLowerName(name)
  {
    var all := NAMES;
    assert all[0] == "password" && all[1] == "secret" && all[2] == "token" && all[3] == "apikey";
    assert all[4] == "accesstoken" && all[5] == "privatekey";
    assert IsLowerName("password") && IsLowerName("secret") && IsLowerName("token") && IsLowerName("apikey");
    assert IsLowerName("accesstoken") && IsLowerName("privatekey");
  }

  /** A key is sensitive exactly when it spells one of the six names at its end. */
  lemma SensitiveKeyExactly(key: string)
    ensures IsSensitiveKey(Normalised(key)) <==> exists name | name in NAMES :: SpellsAtEnd(key, name)
  {
    NamesAreLower();
    forall name | name in NAMES ensures EndsWith(Normalised(key), name) <==> SpellsAtEnd(key, name) {
      SpellsExactly(key, name);
    }
    SensitiveByName(Normalised(key));
    hide IsSensitiveKey, SpellsAtEnd, Normalised, EndsWith;
  }

  lemma SensitiveByName(key: string)
    ensures IsSensitiveKey(key) <==> exists name | name in NAMES :: EndsWith(key, name)
  {
    hide EndsWith;
    var all := NAMES;
    assert |all| == 6 && all[0] == "password" && all[1] == "secret" && all[2] == "token" && all[3] == "apikey";
    assert all[4] == "accesstoken" && all[5] == "privatekey";
    assert all[0] in all && all[1] in all && all[2] in all && all[3] in all && all[4] in all && all[5] in all;
  }

  /** What a line becomes: a non-blank value after the first separator is replaced exactly when the key spells a
      credential name at its end; a value that begins with a quote becomes the quoted mask after one space, its final
      comma kept, and any other the bare mask. Every other line stays as it is. */
  lemma LineBecomes(key: string, separator: char, value: string)
    requires IsHead(key, separator)
    ensures var line := key + [separator] + value; var v := Trim(value);
      RedactLine(line) ==
        if v == "" || !(exists name | name in NAMES :: SpellsAtEnd(key, name)) then line
        else if v[0] != '"' && v[0] != '\'' then key + [separator] + "[REDACTED]"
        else if v[|v| - 1] == ',' then key + [separator] + " \"[REDACTED]\","
        else key + [separator] + " \"[REDACTED]\""
  {
    hide IsSensitiveKey, Normalised, SpellsAtEnd, Trim, IsHead, EndsWith;
    LineParts(key, separator, value);
    SensitiveKeyExactly(key);
    if Trim(value) != "" {
      MaskIs(Trim(value));
    }
  }

  lemma MaskIs(v: string)
    requires v != ""
    ensures Masked(v) ==
      if v[0] != '"' && v[0] != '\'' then "[REDACTED]"
      else if v[|v| - 1] == ',' then " \"[REDACTED]\"," else " \"[REDACTED]\""
  {
    assert EndsWith(v, ",") <==> v[|v| - 1] == ',' by {
      assert v[|v| - 1..] == [v[|v| - 1]];
    }
    QuotedIs(MASK);
  }

  lemma QuotedIs(mask: string)
    requires mask == "[REDACTED]"
    ensures " " + Quoted(mask, true) == " \"[REDACTED]\"," && " " + Quoted(mask, false) == " \"[REDACTED]\""
  {
  }

  lemma {:induction false} NoSeparator(line: string)
    requires '=' !in line && ':' !in line
    ensures Separator(line) == |line|
  {
    if line != "" {
      assert line[0] in line;
      NoSeparator(line[1..]);
    }
  }

  /** A line without a separator stays as it is. */
  lemma LineWithoutSeparator(line: string)
    requires '=' !in line && ':' !in line
    ensures RedactLine(line) == line
  {
    hide IsSensitiveKey, Normalised, Trim;
    NoSeparator(line);
  }
}
