/** The error bank: the `Errors` folder, where every session stores the
    questions it missed as a file `MyErrorNN.json`. Before a session the
    error files are counted; at ten or more the smallest name is deleted,
    and the new file is named from the count taken before that deletion. */
module ErrorBank {
  import opened Wrappers
  import opened Text

  const Prefix := "MyError"
  const Suffix := ".json"

  /** The number of error files at which the smallest is deleted. */
  const Capacity := 10

  /** `file.startswith("MyError") and file.endswith(".json")`. */
  predicate IsErrorFile(name: string) {
    StartsWith(name, Prefix) && EndsWith(name, Suffix)
  }

  /** The error files among the names of a folder. */
  function ErrorFiles(folder: set<string>): (files: set<string>)
    ensures files <= folder
    ensures forall f :: f in folder ==> (f in files <==> IsErrorFile(f))
  {
    set f | f in folder && IsErrorFile(f)
  }

  /** Every non-empty finite set of names has a smallest one. */
  lemma {:induction false} HasSmallest(names: set<string>)
    requires names != {}
    ensures exists m :: m in names && forall f :: f in names ==> LexLe(m, f)
    decreases names
  {
    var x :| x in names;
    LexLeReflexive(x);
    if names != {x} {
      HasSmallest(names - {x});
      var m :| m in names - {x} && forall f :: f in names - {x} ==> LexLe(m, f);
      LexLeTotal(x, m);
      if LexLe(x, m) {
        forall f | f in names ensures LexLe(x, f) {
          if f != x {
            LexLeTransitive(x, m, f);
          }
        }
      } else {
        assert forall f :: f in names ==> LexLe(m, f);
      }
    }
  }

  /** `sorted(error_files)[0]`: the name that sorts first. */
  ghost function Oldest(names: set<string>): (m: string)
    requires names != {}
    ensures m in names
    ensures forall f :: f in names ==> LexLe(m, f)
  {
    HasSmallest(names);
    var m :| m in names && forall f :: f in names ==> LexLe(m, f);
    m
  }

  /** Only one name sorts first, so `Oldest` is the file the source deletes. */
  lemma OldestIsUnique(names: set<string>, m: string)
    requires m in names && forall f :: f in names ==> LexLe(m, f)
    ensures m == Oldest(names)
  {
    LexLeAntisymmetric(m, Oldest(names));
  }

  /** Every non-empty finite set of names has a largest one. */
  lemma {:induction false} HasLargest(names: set<string>)
    requires names != {}
    ensures exists m :: m in names && forall f :: f in names ==> LexLe(f, m)
    decreases names
  {
    var x :| x in names;
    LexLeReflexive(x);
    if names != {x} {
      HasLargest(names - {x});
      var m :| m in names - {x} && forall f :: f in names - {x} ==> LexLe(f, m);
      LexLeTotal(x, m);
      if LexLe(m, x) {
        forall f | f in names ensures LexLe(f, x) {
          if f != x {
            LexLeTransitive(f, m, x);
          }
        }
      } else {
        assert forall f :: f in names ==> LexLe(f, m);
      }
    }
  }

  /** The name that sorts last. */
  ghost function Newest(names: set<string>): (m: string)
    requires names != {}
    ensures m in names
    ensures forall f :: f in names ==> LexLe(f, m)
  {
    HasLargest(names);
    var m :| m in names && forall f :: f in names ==> LexLe(f, m);
    m
  }

  /** `sorted(names, reverse=True)`: every name once, largest first (the
      order is `NewestFirstDescending`). */
  ghost function NewestFirst(names: set<string>): (s: seq<string>)
    ensures forall f :: f in s <==> f in names
    ensures |s| == |names|
    decreases names
  {
    if names == {} then []
    else
      var m := Newest(names);
      [m] + NewestFirst(names - {m})
  }

  /** Each name sorts after every later one, and no name is listed twice. */
  predicate Descending(s: seq<string>) {
    forall i, j :: 0 <= i < j < |s| ==> LexLe(s[j], s[i]) && s[i] != s[j]
  }

  /** The listing `view_errors` shows is in descending order. */
  lemma {:induction false} NewestFirstDescending(names: set<string>)
    ensures Descending(NewestFirst(names))
    decreases names
  {
    if names != {} {
      var m := Newest(names);
      var rest := NewestFirst(names - {m});
      NewestFirstDescending(names - {m});
      assert Descending(rest);
      var s := NewestFirst(names);
      assert s == [m] + rest;
      forall i, j | 0 <= i < j < |s| ensures LexLe(s[j], s[i]) && s[i] != s[j] {
        assert s[j] == rest[j - 1];
        if i > 0 {
          assert s[i] == rest[i - 1];
        } else {
          assert rest[j - 1] in rest;
        }
      }
    }
  }

  /** `f"MyError{count + 1:02d}.json"`: the new file's name for `count`
      error files. */
  function NewErrorName(count: nat): (name: string)
    ensures IsErrorFile(name)
  {
    var name := Prefix + Pad2(count + 1) + Suffix;
    assert name[..|Prefix|] == Prefix;
    assert name[|name| - |Suffix|..] == Suffix;
    name
  }

  /** Different counts give different names. */
  lemma NewErrorNameInjective(a: nat, b: nat)
    requires NewErrorName(a) == NewErrorName(b)
    ensures a == b
  {
    var na, nb := NewErrorName(a), NewErrorName(b);
    assert na[|Prefix|..|na| - |Suffix|] == Pad2(a + 1);
    assert nb[|Prefix|..|nb| - |Suffix|] == Pad2(b + 1);
    Pad2Injective(a + 1, b + 1);
  }

  /** What happens to the folder before the session: the deleted file, if
      any, the names left, and the name the session will write. */
  datatype Rotation = Rotation(deleted: Option<string>, kept: set<string>, target: string)

  /** Lines 123-127 of `play_quiz`: with `k` error files, the smallest is
      deleted when `k >= 10`, and the new name is built from `k`. */
  ghost function Rotate(folder: set<string>): (r: Rotation)
    ensures r.deleted.Some? <==> |ErrorFiles(folder)| >= Capacity
    ensures r.deleted.Some? ==>
      r.deleted.value in ErrorFiles(folder)
      && (forall f :: f in ErrorFiles(folder) ==> LexLe(r.deleted.value, f))
      && r.kept == folder - {r.deleted.value}
    ensures r.deleted.None? ==> r.kept == folder
    ensures r.target == NewErrorName(|ErrorFiles(folder)|)
  {
    var files := ErrorFiles(folder);
    if |files| >= Capacity then
      var oldest := Oldest(files);
      Rotation(Some(oldest), folder - {oldest}, NewErrorName(|files|))
    else
      Rotation(None, folder, NewErrorName(|files|))
  }

  /** `save_quiz(new_error_file, errors_to_save)`: writing creates the file,
      or replaces the file of the same name. */
  function Store(folder: set<string>, name: string): (stored: set<string>)
    ensures name in stored && folder <= stored
    ensures |stored| == |folder| + if name in folder then 0 else 1
  {
    var stored := folder + {name};
    assert name in folder ==> stored == folder;
    assert name !in folder ==> stored - {name} == folder;
    stored
  }

  /** The folder once a session has rotated it and stored its errors. */
  ghost function AfterSession(folder: set<string>): set<string> {
    var r := Rotate(folder);
    Store(r.kept, r.target)
  }

  /** A session adds one error file unless its new name is already taken,
      in which case that file is overwritten and the count stays. */
  lemma SessionFileCount(folder: set<string>)
    ensures var r := Rotate(folder);
      |ErrorFiles(AfterSession(folder))| == |ErrorFiles(r.kept)| + if r.target in r.kept then 0 else 1
  {
    var r := Rotate(folder);
    var before := ErrorFiles(r.kept);
    assert ErrorFiles(AfterSession(folder)) == before + {r.target};
    assert r.target in r.kept <==> r.target in before;
    if r.target !in before {
      assert |before + {r.target}| == |before| + 1;
    } else {
      assert before + {r.target} == before;
    }
  }

  /** The bank never holds more than ten error files once it holds at most ten. */
  lemma BankStaysBounded(folder: set<string>)
    requires |ErrorFiles(folder)| <= Capacity
    ensures |ErrorFiles(AfterSession(folder))| <= Capacity
  {
    var r := Rotate(folder);
    SessionFileCount(folder);
    if r.deleted.Some? {
      assert ErrorFiles(r.kept) == ErrorFiles(folder) - {r.deleted.value};
    }
  }

  /** The quirk of the naming rule: a folder holding only `MyError02.json`
      counts one file, so the session writes `MyError02.json` again and the
      earlier errors stored there are lost. */
  lemma NameCanCollide()
    ensures var folder := {"MyError02.json"};
      Rotate(folder).target == "MyError02.json"
      && Rotate(folder).target in Rotate(folder).kept
      && AfterSession(folder) == folder
  {
    var folder := {"MyError02.json"};
    assert IsErrorFile("MyError02.json");
    assert ErrorFiles(folder) == folder;
    assert Pad2(2) == "02";
  }
}
