/** The code of `split_fields`: an object updated while the word is walked. */
module FieldSplitter {
  import opened Chars
  import opened Words
  import opened FieldSplitting

  class SplitFieldsData {
    var fields: seq<seq<Word>>  // the children of each field list
    var curField: int           // index of the list being filled, -1 for none
    const ifs: string
    const ifsNonSpace: string
    var inIfs: bool
    var inIfsNonSpace: bool

    ghost predicate Valid()
      reads this
    {
      && -1 <= curField < |fields|
      && (curField >= 0 ==> curField == |fields| - 1)
      && (forall c :: c in ifsNonSpace <==> c in ifs && !IsSpace(c))
    }

    ghost function State(): (st: Split)
      requires Valid()
      reads this
      ensures st.open ==> st.fields != []
    {
      Split(fields, curField >= 0, inIfs, inIfsNonSpace)
    }

    constructor (ifs: string, ifsNonSpace: string)
      requires forall c :: c in ifsNonSpace <==> c in ifs && !IsSpace(c)
      ensures Valid() && State() == START && this.ifs == ifs
    {
      fields, curField := [], -1;
      this.ifs, this.ifsNonSpace := ifs, ifsNonSpace;
      inIfs, inIfsNonSpace := true, false;
    }

    method AddToCurField(w: Word)
      requires Valid()
      modifies this
      ensures Valid() && State() == AddWord(old(State()), w)
    {
      if curField < 0 {
        fields := fields + [[]];
        curField := |fields| - 1;
        assert fields[curField] + [w] == [w];
      }
      fields := fields[curField := fields[curField] + [w]];
      assert fields == AddWord(old(State()), w).fields;
    }

    method SplitString(str: string)
      requires Valid()
      modifies this
      ensures Valid() && State() == SplitChars(str, ifs, "", old(State()))
    {
      var buf := "";
      var i := 0;
      while i < |str|
        invariant 0 <= i <= |str| && Valid()
        invariant SplitChars(str[i..], ifs, buf, State()) == SplitChars(str, ifs, "", old(State()))
      {
        var c := str[i];
        assert str[i..][1..] == str[i + 1..];
        i := i + 1;
        if c !in ifs {
          buf := buf + [c];
          inIfs, inIfsNonSpace := false, false;
          continue;
        }
        var isIfsNonSpace := c in ifsNonSpace;
        if !inIfs || (isIfsNonSpace && inIfsNonSpace) {
          AddToCurField(Str(buf, false, false));
          buf := "";
          curField := -1;
          inIfs := true;
        } else if isIfsNonSpace {
          inIfsNonSpace := true;
        }
      }
      if !inIfs {
        AddToCurField(Str(buf, false, false));
      }
    }

    method SplitFields(w: Word)
      requires Valid() && Expanded(w)
      modifies this
      ensures Valid() && State() == SplitWord(w, ifs, old(State()))
      decreases w
    {
      match w
      case Str(str, singleQuoted, splitFields) =>
        if singleQuoted || !splitFields {
          AddToCurField(Copy(w));
          inIfs, inIfsNonSpace := false, false;
          return;
        }
        SplitString(str);
      case List(children, doubleQuoted) =>
        if doubleQuoted {
          AddToCurField(Copy(w));
          return;
        }
        var i := 0;
        while i < |children|
          invariant 0 <= i <= |children| && Valid()
          invariant SplitWords(children[i..], ifs, State()) == SplitWords(children, ifs, old(State()))
        {
          SplitFields(children[i]);
          assert children[i..][1..] == children[i + 1..];
          i := i + 1;
        }
    }
  }

  /** The whole operation. */
  method SplitFields(w: Word, ifs: Option<string>) returns (fields: seq<Word>)
    requires Expanded(w)
    ensures fields == FieldSplitting.SplitFields(w, ifs)
  {
    var separators := DEFAULT_IFS;
    if ifs.Some? {
      if ifs.value == "" {
        return [Copy(w)];
      }
      separators := ifs.value;
    }
    var nonSpace := "";
    for i := 0 to |separators|
      invariant forall c :: c in nonSpace <==> c in separators[..i] && !IsSpace(c)
    {
      if !IsSpace(separators[i]) {
        nonSpace := nonSpace + [separators[i]];
      }
    }
    assert separators[..|separators|] == separators;
    var data := new SplitFieldsData(separators, nonSpace);
    data.SplitFields(w);
    fields := AsLists(data.fields);
  }
}
