/**
 * The label of an endpoint's `auth` field (sentryext.py:362-384,
 * `AuthField.make_entry`): the field's text is read as a comma-separated
 * list of flags, and the label names the authentication level, adding that
 * a user context is needed when that flag is present.
 */
module AuthField {
  import opened PyStr

  const Required: string := "required"
  const Optional: string := "optional"
  const Unauthenticated: string := "unauthenticated"
  const UserContextFlag: string := "user-context-needed"
  const UserContextNote: string := "user context needed"

  /** The authentication level the flags ask for: `required` wins over
      `optional`, and neither means none. */
  datatype Level = RequiredLevel | OptionalLevel | NoAuth

  function LevelOf(flags: set<string>): Level
  {
    if Required in flags then RequiredLevel
    else if Optional in flags then OptionalLevel
    else NoAuth
  }

  function LevelWord(level: Level): string
  {
    match level
    case RequiredLevel => Required
    case OptionalLevel => Optional
    case NoAuth => Unauthenticated
  }

  /** `u''.join(x.rawsource for x in content)` split into flags. */
  function Flags(content: seq<string>): set<string>
  {
    CommaSet(Join(content, []))
  }

  /** `', '.join(rv)`, where rv holds the level word and possibly the note. */
  function Label(flags: set<string>): string
  {
    var rv := [LevelWord(LevelOf(flags))] + (if UserContextFlag in flags then [UserContextNote] else []);
    Join(rv, ", ")
  }

  /** `make_entry(fieldarg, content)`: the field argument and the label text
      of the inline node. */
  function MakeEntry(fieldarg: string, content: seq<string>): (entry: (string, string))
    ensures entry.0 == fieldarg && entry.1 == Label(Flags(content))
    ensures var flags := Flags(content);
            StartsWith(entry.1, LevelWord(LevelOf(flags))) &&
            (UserContextFlag in flags <==> EndsWith(entry.1, ", " + UserContextNote))
  {
    var flags := Flags(content);
    LabelShape(flags);
    LabelNote(flags);
    (fieldarg, Label(flags))
  }

  predicate StartsWith(s: string, prefix: string)
  {
    |prefix| <= |s| && s[..|prefix|] == prefix
  }

  predicate EndsWith(s: string, suffix: string)
  {
    |suffix| <= |s| && s[|s| - |suffix|..] == suffix
  }

  /** The label is the level word, followed by the note exactly when the flag
      is present. */
  lemma LabelShape(flags: set<string>)
    ensures UserContextFlag in flags ==> Label(flags) == LevelWord(LevelOf(flags)) + ", " + UserContextNote
    ensures UserContextFlag !in flags ==> Label(flags) == LevelWord(LevelOf(flags))
  {
    var w := LevelWord(LevelOf(flags));
    if UserContextFlag in flags {
      JoinCons(w, [UserContextNote], ", ");
    }
  }

  /** The label begins with `required` when that flag is set, otherwise with
      `optional` when that one is, and otherwise with `unauthenticated`; it
      begins with no other of the three words. */
  lemma LabelLevel(flags: set<string>)
    ensures StartsWith(Label(flags), Required) <==> Required in flags
    ensures StartsWith(Label(flags), Optional) <==> Required !in flags && Optional in flags
    ensures StartsWith(Label(flags), Unauthenticated) <==> Required !in flags && Optional !in flags
  {
    LabelShape(flags);
    var l := Label(flags);
    var w := LevelWord(LevelOf(flags));
    assert l[..|w|] == w;
    assert l[0] == w[0];
    forall x | x in {Required, Optional, Unauthenticated} && StartsWith(l, x) ensures l[0] == x[0] {
      assert l[..|x|][0] == x[0];
    }
  }

  /** `, user context needed` ends the label exactly when the flag is set. */
  lemma LabelNote(flags: set<string>)
    ensures EndsWith(Label(flags), ", " + UserContextNote) <==> UserContextFlag in flags
  {
    LabelShape(flags);
    var l := Label(flags);
    var w := LevelWord(LevelOf(flags));
    var note := ", " + UserContextNote;
    if UserContextFlag in flags {
      assert l[|l| - |note|..] == note;
    }
  }

  /** The label tells exactly the level and whether the note applies. */
  lemma LabelInjective(f1: set<string>, f2: set<string>)
    ensures Label(f1) == Label(f2) <==>
            LevelOf(f1) == LevelOf(f2) && (UserContextFlag in f1 <==> UserContextFlag in f2)
  {
    LabelShape(f1);
    LabelShape(f2);
    LabelLevel(f1);
    LabelLevel(f2);
    LabelNote(f1);
    LabelNote(f2);
    if Label(f1) == Label(f2) {
      assert StartsWith(Label(f1), LevelWord(LevelOf(f1)));
    }
  }

  /** Flags written as a clean comma-separated list are read back as they
      were written. */
  lemma FlagsOfList(items: seq<string>)
    requires |items| >= 1
    requires forall k :: 0 <= k < |items| ==>
               items[k] != [] && ',' !in items[k] && !IsSpace(items[k][0]) && !IsSpace(items[k][|items[k]| - 1])
    ensures Flags([Join(items, ",")]) == set k | 0 <= k < |items| :: items[k]
  {
    CommaSetOfJoin(items);
  }
}
