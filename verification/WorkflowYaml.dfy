/** One-pass duplicate-key check of workflow files (`validate_workflow_yaml` in `scripts/workflow_yaml.py`). */
module WorkflowYaml {
  import opened Options

  /** A line that has the shape of a mapping entry; `key` is `None` when its quoting is invalid. */
  datatype Entry = Entry(item: bool, key: Option<string>, opensBlockScalar: bool)

  datatype Content = Blank | Comment | Text(indent: nat, entry: Option<Entry>)

  datatype Line = Line(hasTab: bool, content: Content)

  datatype Outcome = Accepted | EmptyWorkflow | TabAt(line: nat) | BadKeyAt(line: nat) | DuplicateAt(line: nat, first: nat)

  /** An entry that takes part in the check: its line, key and indentation. */
  datatype Effective = Effective(line: nat, indent: nat, item: bool, key: string)

  datatype Mapping = Mapping(keyIndent: nat, keys: map<string, nat>)

  function KeyIndent(indent: nat, entry: Entry): nat
  {
    if entry.item then indent + 2 else indent
  }

  /** Where the key of an entry counts as standing: two columns right of the dash of a list item. */
  function KeyColumn(c: Content): nat
    requires c.Text? && c.entry.Some?
  {
    match c.entry.value.item
    case true => c.indent + 2
    case false => c.indent
  }

  // ---------------------------------------------------------------- the declarative rule

  /** No entry after `i` has closed the mapping that entry `i` belongs to. */
  predicate Open(es: seq<Effective>, i: nat)
    requires i < |es|
  {
    forall k | i < k < |es| :: es[k].indent > es[i].indent || (es[k].indent == es[i].indent && !es[k].item)
  }

  /** Entries `i` and `j` are keys of one mapping. */
  predicate SameMapping(es: seq<Effective>, i: nat, j: nat)
    requires i < j < |es|
  {
    && es[i].indent == es[j].indent && !es[j].item
    && forall k | i < k < j :: es[k].indent > es[i].indent || (es[k].indent == es[i].indent && !es[k].item)
  }

  predicate Duplicates(es: seq<Effective>, i: nat, j: nat)
    requires i < j < |es|
  {
    SameMapping(es, i, j) && es[i].key == es[j].key
  }

  ghost predicate NoDuplicates(es: seq<Effective>)
  {
    forall i, j | 0 <= i < j < |es| :: !Duplicates(es, i, j)
  }

  lemma SameMappingIsOpen(es: seq<Effective>, i: nat, e: Effective)
    requires i < |es|
    ensures SameMapping(es + [e], i, |es|) <==> Open(es, i) && es[i].indent == e.indent && !e.item
  {
    var all := es + [e];
    assert forall k | 0 <= k < |es| :: all[k] == es[k];
  }

  lemma OpenOneMore(es: seq<Effective>, i: nat, e: Effective)
    requires i < |es|
    ensures Open(es + [e], i) <==> Open(es, i) && (e.indent > es[i].indent || (e.indent == es[i].indent && !e.item))
  {
    var all := es + [e];
    assert forall k | 0 <= k < |es| :: all[k] == es[k];
    assert all[|es|] == e;
  }

  // ---------------------------------------------------------------- the stack stands for the open entries

  ghost predicate Increasing(stack: seq<Mapping>)
  {
    forall p, q | 0 <= p < q < |stack| :: stack[p].keyIndent < stack[q].keyIndent
  }

  /** Entry `i` is recorded in mapping `m`. */
  predicate Recorded(m: Mapping, e: Effective)
  {
    m.keyIndent == e.indent && e.key in m.keys && m.keys[e.key] == e.line
  }

  ghost predicate HasMapping(stack: seq<Mapping>, e: Effective)
  {
    exists p :: 0 <= p < |stack| && Recorded(stack[p], e)
  }

  ghost predicate HasEntry(es: seq<Effective>, m: Mapping, key: string)
  {
    exists i :: 0 <= i < |es| && Open(es, i) && es[i].key == key && Recorded(m, es[i])
  }

  /** The mappings on the stack hold exactly the open entries. */
  ghost predicate Represents(es: seq<Effective>, stack: seq<Mapping>)
  {
    && Increasing(stack)
    && (forall i | 0 <= i < |es| && Open(es, i) :: HasMapping(stack, es[i]))
    && (forall p, key | 0 <= p < |stack| && key in stack[p].keys :: HasEntry(es, stack[p], key))
  }

  lemma MappingOf(es: seq<Effective>, stack: seq<Mapping>, i: nat) returns (p: nat)
    requires Represents(es, stack) && i < |es| && Open(es, i)
    ensures p < |stack| && Recorded(stack[p], es[i])
  {
    assert HasMapping(stack, es[i]);
    p :| 0 <= p < |stack| && Recorded(stack[p], es[i]);
  }

  lemma EntryOf(es: seq<Effective>, stack: seq<Mapping>, p: nat, key: string) returns (i: nat)
    requires Represents(es, stack) && p < |stack| && key in stack[p].keys
    ensures i < |es| && Open(es, i) && es[i].key == key && Recorded(stack[p], es[i])
  {
    assert HasEntry(es, stack[p], key);
    i :| 0 <= i < |es| && Open(es, i) && es[i].key == key && Recorded(stack[p], es[i]);
  }

  predicate Closes(m: Mapping, indent: nat, item: bool)
  {
    if item then m.keyIndent >= indent else m.keyIndent > indent
  }

  /** What the two popping loops leave. */
  function Popped(stack: seq<Mapping>, indent: nat, item: bool): seq<Mapping>
  {
    if stack != [] && Closes(stack[|stack| - 1], indent, item) then Popped(stack[..|stack| - 1], indent, item) else stack
  }

  lemma {:induction false} PoppedIsPrefix(stack: seq<Mapping>, indent: nat, item: bool)
    requires Increasing(stack)
    ensures Popped(stack, indent, item) <= stack
    ensures forall p | 0 <= p < |stack| :: p < |Popped(stack, indent, item)| <==> !Closes(stack[p], indent, item)
  {
    if stack != [] && Closes(stack[|stack| - 1], indent, item) {
      PoppedIsPrefix(stack[..|stack| - 1], indent, item);
    }
  }

  /** The stack after popping and, where needed, pushing: its top is the entry's mapping. */
  function WithCurrent(stack: seq<Mapping>, indent: nat, item: bool): (r: seq<Mapping>)
    ensures r != []
  {
    var popped := Popped(stack, indent, item);
    if item || popped == [] || popped[|popped| - 1].keyIndent < indent then popped + [Mapping(indent, map[])] else popped
  }

  /** `s` is `stack` without what the entry closes, and its top is the entry's own mapping. */
  ghost predicate Shape(stack: seq<Mapping>, s: seq<Mapping>, indent: nat, item: bool)
  {
    && s != [] && Increasing(s) && s[|s| - 1].keyIndent == indent
    && (item ==> s[|s| - 1].keys == map[])
    && (forall p | 0 <= p < |s| - 1 :: p < |stack| && s[p] == stack[p])
    && (forall p | 0 <= p < |stack| && !Closes(stack[p], indent, item) :: p < |s| && s[p] == stack[p])
    && (s[|s| - 1].keys != map[] ==> |s| <= |stack| && s[|s| - 1] == stack[|s| - 1])
  }

  lemma CurrentShape(stack: seq<Mapping>, indent: nat, item: bool)
    requires Increasing(stack)
    ensures Shape(stack, WithCurrent(stack, indent, item), indent, item)
  {
    PoppedIsPrefix(stack, indent, item);
    var popped := Popped(stack, indent, item);
    assert forall p | 0 <= p < |popped| :: popped[p] == stack[p] && !Closes(stack[p], indent, item);
  }

  /** Entry `n` repeats an earlier key of its mapping, first declared at `line`. */
  ghost predicate Repeats(es: seq<Effective>, n: nat, line: nat)
    requires n < |es|
  {
    exists i :: 0 <= i < n && Duplicates(es, i, n) && es[i].line == line
  }

  /** A key found in the current mapping belongs to an earlier entry that the new one duplicates. */
  lemma FoundRepeats(es: seq<Effective>, stack: seq<Mapping>, s: seq<Mapping>, e: Effective)
    requires Represents(es, stack) && Shape(stack, s, e.indent, e.item) && e.key in s[|s| - 1].keys
    ensures Repeats(es + [e], |es|, s[|s| - 1].keys[e.key])
  {
    hide Represents, Open, SameMapping, Increasing, Closes;
    var i := EntryOf(es, stack, |s| - 1, e.key);
    SameMappingIsOpen(es, i, e);
    assert (es + [e])[i] == es[i];
    assert Duplicates(es + [e], i, |es|);
  }

  /** A key missing from the current mapping duplicates nothing. */
  lemma MissingIsNew(es: seq<Effective>, stack: seq<Mapping>, s: seq<Mapping>, e: Effective, i: nat)
    requires Represents(es, stack) && Shape(stack, s, e.indent, e.item) && e.key !in s[|s| - 1].keys
    requires i < |es|
    ensures !Duplicates(es + [e], i, |es|)
  {
    hide Represents, Open, SameMapping, Shape;
    SameMappingIsOpen(es, i, e);
    if Open(es, i) && es[i].indent == e.indent && !e.item {
      var p := MappingOf(es, stack, i);
      OnTop(s, stack, p, e);
    }
  }

  /** Finding the key in the current mapping is finding the one earlier entry it duplicates. */
  lemma CurrentFinds(es: seq<Effective>, stack: seq<Mapping>, s: seq<Mapping>, e: Effective)
    requires Represents(es, stack) && Shape(stack, s, e.indent, e.item)
    ensures e.key in s[|s| - 1].keys ==> Repeats(es + [e], |es|, s[|s| - 1].keys[e.key])
    ensures e.key !in s[|s| - 1].keys ==> forall i | 0 <= i < |es| :: !Duplicates(es + [e], i, |es|)
  {
    assert s != [];
    hide Represents, Duplicates, Repeats, Shape;
    if e.key in s[|s| - 1].keys {
      FoundRepeats(es, stack, s, e);
    } else {
      forall i | 0 <= i < |es| ensures !Duplicates(es + [e], i, |es|) { MissingIsNew(es, stack, s, e, i); }
    }
  }

  /** A mapping of the entry's own indentation that is not closed is the current one. */
  lemma OnTop(s: seq<Mapping>, stack: seq<Mapping>, p: nat, e: Effective)
    requires Shape(stack, s, e.indent, e.item)
    requires p < |stack| && stack[p].keyIndent == e.indent && !e.item
    ensures s[|s| - 1] == stack[p]
  {
    assert !Closes(stack[p], e.indent, e.item);
  }

  function Record(s: seq<Mapping>, e: Effective): (r: seq<Mapping>)
    requires s != []
    ensures |r| == |s|
  {
    s[|s| - 1 := s[|s| - 1].(keys := s[|s| - 1].keys[e.key := e.line])]
  }

  /** Recording a key in the current mapping loses no record. */
  lemma StillRecorded(s: seq<Mapping>, e: Effective, p: nat, f: Effective)
    requires p < |s| && Recorded(s[p], f)
    requires e.key !in s[|s| - 1].keys
    ensures HasMapping(Record(s, e), f)
  {
    assert Recorded(Record(s, e)[p], f);
  }

  lemma KeyOfRecord(s: seq<Mapping>, e: Effective, p: nat, key: string)
    requires p < |s| && key in Record(s, e)[p].keys
    requires !(p == |s| - 1 && key == e.key)
    ensures key in s[p].keys && Record(s, e)[p].keyIndent == s[p].keyIndent
    ensures Record(s, e)[p].keys[key] == s[p].keys[key]
  {}

  /** An open entry whose mapping the new entry does not close stays open and recorded. */
  lemma KeptMapping(es: seq<Effective>, stack: seq<Mapping>, s: seq<Mapping>, e: Effective, i: nat)
    requires Represents(es, stack) && i < |es| && Open(es + [e], i)
    requires s != [] && e.key !in s[|s| - 1].keys
    requires forall p | 0 <= p < |stack| && !Closes(stack[p], e.indent, e.item) :: p < |s| && s[p] == stack[p]
    ensures HasMapping(Record(s, e), es[i])
  {
    hide Represents, Open, Record, HasMapping;
    OpenOneMore(es, i, e);
    var p := MappingOf(es, stack, i);
    assert !Closes(stack[p], e.indent, e.item);
    StillRecorded(s, e, p, es[i]);
  }

  lemma NewMapping(s: seq<Mapping>, e: Effective)
    requires s != [] && s[|s| - 1].keyIndent == e.indent
    ensures HasMapping(Record(s, e), e)
  {
    assert Recorded(Record(s, e)[|s| - 1], e);
  }

  /** A key that was recorded before stands for an entry that is still open. */
  lemma KeptEntry(es: seq<Effective>, stack: seq<Mapping>, e: Effective, p: nat, key: string, m: Mapping)
    requires Represents(es, stack) && p < |stack| && key in stack[p].keys
    requires stack[p].keyIndent < e.indent || (stack[p].keyIndent == e.indent && !e.item)
    requires m.keyIndent == stack[p].keyIndent && key in m.keys && m.keys[key] == stack[p].keys[key]
    ensures HasEntry(es + [e], m, key)
  {
    hide Represents, Open;
    var i := EntryOf(es, stack, p, key);
    OpenOneMore(es, i, e);
    assert (es + [e])[i] == es[i];
    EntryStands(es + [e], m, key, i);
  }

  lemma EntryStands(es: seq<Effective>, m: Mapping, key: string, i: nat)
    requires i < |es| && Open(es, i) && es[i].key == key && Recorded(m, es[i])
    ensures HasEntry(es, m, key)
  {}

  lemma NewEntry(es: seq<Effective>, s: seq<Mapping>, e: Effective)
    requires s != [] && s[|s| - 1].keyIndent == e.indent
    ensures HasEntry(es + [e], Record(s, e)[|s| - 1], e.key)
  {
    assert (es + [e])[|es|] == e;
    EntryStands(es + [e], Record(s, e)[|s| - 1], e.key, |es|);
  }

  /** Every key of the new stack stands for an open entry. */
  lemma EachEntry(es: seq<Effective>, stack: seq<Mapping>, s: seq<Mapping>, e: Effective, p: nat, key: string)
    requires Represents(es, stack) && Shape(stack, s, e.indent, e.item)
    requires p < |s| && key in Record(s, e)[p].keys
    ensures HasEntry(es + [e], Record(s, e)[p], key)
  {
    hide Represents, Open, HasEntry, Closes;
    if p == |s| - 1 && key == e.key {
      NewEntry(es, s, e);
    } else {
      KeyOfRecord(s, e, p, key);
      assert s[p].keys != map[];
      assert s[p] == stack[p];
      assert p < |s| - 1 ==> s[p].keyIndent < s[|s| - 1].keyIndent;
      hide Record;
      KeptEntry(es, stack, e, p, key, Record(s, e)[p]);
    }
  }

  lemma RecordedIncreases(s: seq<Mapping>, e: Effective)
    requires s != [] && Increasing(s)
    ensures Increasing(Record(s, e))
  {}

  lemma EachMapping(es: seq<Effective>, stack: seq<Mapping>, s: seq<Mapping>, e: Effective, i: nat)
    requires Represents(es, stack) && Shape(stack, s, e.indent, e.item) && e.key !in s[|s| - 1].keys
    requires i <= |es| && Open(es + [e], i)
    ensures HasMapping(Record(s, e), (es + [e])[i])
  {
    hide Represents, Open, HasMapping, Record, Closes, Increasing;
    if i < |es| { KeptMapping(es, stack, s, e, i); } else { NewMapping(s, e); }
  }

  /** Recording the entry keeps the correspondence. */
  lemma RecordKeeps(es: seq<Effective>, stack: seq<Mapping>, s: seq<Mapping>, e: Effective)
    requires Represents(es, stack) && Shape(stack, s, e.indent, e.item) && e.key !in s[|s| - 1].keys
    ensures Represents(es + [e], Record(s, e))
  {
    assert Increasing(s);
    hide Represents, Open, Increasing, HasMapping, HasEntry, Record, Shape;
    var es', s' := es + [e], Record(s, e);
    forall i | 0 <= i < |es'| && Open(es', i) ensures HasMapping(s', es'[i]) { EachMapping(es, stack, s, e, i); }
    forall p, key | 0 <= p < |s'| && key in s'[p].keys ensures HasEntry(es', s'[p], key) { EachEntry(es, stack, s, e, p, key); }
    RecordedIncreases(s, e);
    RepresentsBecause(es', s');
  }

  lemma RepresentsBecause(es: seq<Effective>, stack: seq<Mapping>)
    requires Increasing(stack)
    requires forall i | 0 <= i < |es| && Open(es, i) :: HasMapping(stack, es[i])
    requires forall p, key | 0 <= p < |stack| && key in stack[p].keys :: HasEntry(es, stack[p], key)
    ensures Represents(es, stack)
  {}

  // ---------------------------------------------------------------- which lines take part

  /** The text of a block scalar is being skipped: the indentation of the key that opened it. */
  function BlockAfter(lines: seq<Line>, n: nat): Option<nat>
    requires n <= |lines|
  {
    if n == 0 then None
    else
      var before := BlockAfter(lines, n - 1);
      match lines[n - 1].content
      case Text(indent, entry) =>
        if before.Some? && indent > before.value then before
        else if entry.Some? && entry.value.opensBlockScalar then Some(KeyIndent(indent, entry.value))
        else None
      case _ => before
  }

  /** Line `k` is an entry outside every block scalar. */
  predicate TakesPart(lines: seq<Line>, k: nat)
    requires k < |lines|
  {
    var c := lines[k].content;
    var block := BlockAfter(lines, k);
    c.Text? && c.entry.Some? && (block.Some? ==> c.indent <= block.value)
  }

  /** Line `o` opens a block scalar whose text reaches down to the line before `n`. */
  predicate BlockFrom(lines: seq<Line>, o: nat, n: nat)
    requires o < n <= |lines|
  {
    && TakesPart(lines, o) && lines[o].content.entry.value.opensBlockScalar
    && var indent := KeyColumn(lines[o].content);
       forall k | o < k < n && lines[k].content.Text? :: lines[k].content.indent > indent
  }

  predicate InBlock(lines: seq<Line>, n: nat, indent: nat)
    requires n <= |lines|
  {
    exists o | 0 <= o < n :: BlockFrom(lines, o, n) && indent == KeyColumn(lines[o].content)
  }

  /** The one remembered indentation tells exactly when an opener with only deeper text below it exists. */
  lemma {:induction false} BlockIsFromOpener(lines: seq<Line>, n: nat)
    requires n <= |lines|
    ensures forall indent: nat :: InBlock(lines, n, indent) <==> BlockAfter(lines, n) == Some(indent)
    decreases n
  {
    if n > 0 {
      BlockIsFromOpener(lines, n - 1);
      forall indent: nat ensures InBlock(lines, n, indent) <==> BlockAfter(lines, n) == Some(indent) {
        if InBlock(lines, n, indent) { BlockRemembered(lines, n, indent); }
        if BlockAfter(lines, n) == Some(indent) { BlockOpened(lines, n, indent); }
      }
    }
  }

  lemma BlockRemembered(lines: seq<Line>, n: nat, indent: nat)
    requires 0 < n <= |lines| && InBlock(lines, n, indent)
    requires forall i: nat :: InBlock(lines, n - 1, i) <==> BlockAfter(lines, n - 1) == Some(i)
    ensures BlockAfter(lines, n) == Some(indent)
  {
    var o :| 0 <= o < n && BlockFrom(lines, o, n) && indent == KeyColumn(lines[o].content);
    if o < n - 1 {
      assert BlockFrom(lines, o, n - 1);
      assert InBlock(lines, n - 1, indent);
    }
  }

  lemma BlockOpened(lines: seq<Line>, n: nat, indent: nat)
    requires 0 < n <= |lines| && BlockAfter(lines, n) == Some(indent)
    requires forall i: nat :: InBlock(lines, n - 1, i) <==> BlockAfter(lines, n - 1) == Some(i)
    ensures InBlock(lines, n, indent)
  {
    if BlockAfter(lines, n - 1) == Some(indent) && (lines[n - 1].content.Text? ==> lines[n - 1].content.indent > indent) {
      assert InBlock(lines, n - 1, indent);
      var o :| 0 <= o < n - 1 && BlockFrom(lines, o, n - 1)
               && indent == KeyColumn(lines[o].content);
      assert BlockFrom(lines, o, n);
    } else {
      assert BlockFrom(lines, n - 1, n);
    }
  }

  /** The entries among the first `n` lines that are compared, in order. */
  function Effects(lines: seq<Line>, n: nat): seq<Effective>
    requires n <= |lines|
  {
    if n == 0 then []
    else if TakesPart(lines, n - 1) && lines[n - 1].content.entry.value.key.Some? then
      Effects(lines, n - 1) + [EffectOf(lines, n - 1)]
    else Effects(lines, n - 1)
  }

  function EffectOf(lines: seq<Line>, k: nat): Effective
    requires k < |lines| && TakesPart(lines, k) && lines[k].content.entry.value.key.Some?
  {
    var text := lines[k].content;
    var entry := text.entry.value;
    Effective(k + 1, KeyColumn(text), entry.item, entry.key.value)
  }

  // ---------------------------------------------------------------- the verdict

  predicate AllBlank(lines: seq<Line>)
  {
    forall k | 0 <= k < |lines| :: lines[k].content.Blank?
  }

  predicate Readable(lines: seq<Line>, k: nat)
    requires k < |lines|
  {
    !lines[k].hasTab && (TakesPart(lines, k) ==> lines[k].content.entry.value.key.Some?)
  }

  /** Nothing is wrong with the first `n` lines. */
  ghost predicate Clean(lines: seq<Line>, n: nat)
    requires n <= |lines|
  {
    (forall k | 0 <= k < n :: Readable(lines, k)) && NoDuplicates(Effects(lines, n))
  }

  /** The line that a rejection names, if it names one. */
  function Where(r: Outcome): nat
  {
    match r
    case TabAt(line) => line
    case BadKeyAt(line) => line
    case DuplicateAt(line, _) => line
    case _ => 0
  }

  /** What line `k` is rejected for, given that all lines before it are clean. */
  ghost predicate Fault(lines: seq<Line>, k: nat, r: Outcome)
    requires k < |lines|
  {
    match r
    case TabAt(_) => lines[k].hasTab
    case BadKeyAt(_) => !lines[k].hasTab && TakesPart(lines, k) && lines[k].content.entry.value.key.None?
    case DuplicateAt(_, first) =>
      && !lines[k].hasTab && TakesPart(lines, k) && lines[k].content.entry.value.key.Some?
      && Repeats(Effects(lines, k) + [EffectOf(lines, k)], |Effects(lines, k)|, first)
    case _ => false
  }

  /** The verdict the rule demands. */
  ghost predicate Verdict(lines: seq<Line>, r: Outcome)
  {
    if (forall line | line in lines :: line.content == Blank) then r == EmptyWorkflow
    else if r.Accepted? then Clean(lines, |lines|)
    else 0 < Where(r) <= |lines| && Clean(lines, Where(r) - 1) && Fault(lines, Where(r) - 1, r)
  }

  lemma NoDuplicatesOneMore(es: seq<Effective>, e: Effective)
    requires NoDuplicates(es)
    ensures NoDuplicates(es + [e]) <==> forall i | 0 <= i < |es| :: !Duplicates(es + [e], i, |es|)
  {
    var all := es + [e];
    assert forall k | 0 <= k < |es| :: all[k] == es[k];
    forall i, j | 0 <= i < j < |es| ensures Duplicates(all, i, j) <==> Duplicates(es, i, j) {}
  }

  /** Among entries without duplicates only one can be repeated by the next. */
  lemma RepeatsOne(es: seq<Effective>, n: nat, first: nat, first': nat)
    requires n < |es| && NoDuplicates(es[..n])
    requires Repeats(es, n, first) && Repeats(es, n, first')
    ensures first == first'
  {
    var i :| 0 <= i < n && Duplicates(es, i, n) && es[i].line == first;
    var j :| 0 <= j < n && Duplicates(es, j, n) && es[j].line == first';
    var before := es[..n];
    if i < j { assert Duplicates(before, i, j); }
    if j < i { assert Duplicates(before, j, i); }
  }

  lemma {:induction false} CleanBefore(lines: seq<Line>, m: nat, n: nat)
    requires m <= n <= |lines| && Clean(lines, n)
    ensures Clean(lines, m)
    decreases n - m
  {
    if m < n {
      var es := Effects(lines, n - 1);
      if TakesPart(lines, n - 1) && lines[n - 1].content.entry.value.key.Some? {
        var all := es + [EffectOf(lines, n - 1)];
        assert forall k | 0 <= k < |es| :: all[k] == es[k];
        forall i, j | 0 <= i < j < |es| ensures !Duplicates(es, i, j) { assert !Duplicates(all, i, j); }
      }
      assert Clean(lines, n - 1);
      CleanBefore(lines, m, n - 1);
    }
  }

  /** A line with a fault is not clean. */
  lemma FaultyIsNotClean(lines: seq<Line>, k: nat, r: Outcome)
    requires k < |lines| && Fault(lines, k, r)
    ensures !Clean(lines, k + 1)
  {
    if r.DuplicateAt? {
      var es := Effects(lines, k) + [EffectOf(lines, k)];
      assert Effects(lines, k + 1) == es;
      var i :| 0 <= i < |es| - 1 && Duplicates(es, i, |es| - 1);
    } else {
      assert !Readable(lines, k);
    }
  }

  /** The rule leaves no choice: one verdict per file, and it names the first faulty line. */
  lemma VerdictIsUnique(lines: seq<Line>, r: Outcome, r': Outcome)
    requires Verdict(lines, r) && Verdict(lines, r')
    ensures r == r'
  {
    hide Clean, Fault;
    if !AllBlank(lines) {
      if !r.Accepted? { NotLater(lines, r, r'); }
      if !r'.Accepted? { NotLater(lines, r', r); }
      if !r.Accepted? && !r'.Accepted? { SameFault(lines, r, r'); }
    }
  }

  lemma NotLater(lines: seq<Line>, r: Outcome, r': Outcome)
    requires !AllBlank(lines) && Verdict(lines, r) && Verdict(lines, r') && !r.Accepted?
    ensures !r'.Accepted? && Where(r') <= Where(r)
  {
    hide Clean, Fault;
    FaultyIsNotClean(lines, Where(r) - 1, r);
    if r'.Accepted? {
      CleanBefore(lines, Where(r), |lines|);
    } else if Where(r) < Where(r') {
      CleanBefore(lines, Where(r), Where(r') - 1);
    }
  }

  lemma SameFault(lines: seq<Line>, r: Outcome, r': Outcome)
    requires !AllBlank(lines) && Verdict(lines, r) && Verdict(lines, r')
    requires !r.Accepted? && !r'.Accepted? && Where(r) == Where(r')
    ensures r == r'
  {
    hide TakesPart, Repeats;
    var k := Where(r) - 1;
    if r.DuplicateAt? && r'.DuplicateAt? {
      var es := Effects(lines, k);
      var all := es + [EffectOf(lines, k)];
      assert all[..|es|] == es;
      RepeatsOne(all, |es|, r.first, r'.first);
    }
  }

  // ---------------------------------------------------------------- the pass

  /** Pops the closed mappings and makes sure the entry's mapping is on top. */
  method Current(stack: seq<Mapping>, keyIndent: nat, item: bool) returns (mappings: seq<Mapping>)
    ensures mappings == WithCurrent(stack, keyIndent, item)
    ensures Increasing(stack) ==> Shape(stack, mappings, keyIndent, item)
  {
    mappings := stack;
    if item {
      while mappings != [] && mappings[|mappings| - 1].keyIndent >= keyIndent
        invariant Popped(mappings, keyIndent, item) == Popped(stack, keyIndent, item)
      {
        mappings := mappings[..|mappings| - 1];
      }
      mappings := mappings + [Mapping(keyIndent, map[])];
    } else {
      while mappings != [] && mappings[|mappings| - 1].keyIndent > keyIndent
        invariant Popped(mappings, keyIndent, item) == Popped(stack, keyIndent, item)
      {
        mappings := mappings[..|mappings| - 1];
      }
      if mappings == [] || mappings[|mappings| - 1].keyIndent < keyIndent {
        mappings := mappings + [Mapping(keyIndent, map[])];
      }
    }
    if Increasing(stack) { CurrentShape(stack, keyIndent, item); }
  }

  /** One entry: the stack either shows the earlier declaration or goes on standing for all entries. */
  method Declare(stack: seq<Mapping>, ghost es: seq<Effective>, e: Effective) returns (mappings: seq<Mapping>,
          first: Option<nat>)
    requires Represents(es, stack) && NoDuplicates(es)
    ensures first.None? ==> Represents(es + [e], mappings) && NoDuplicates(es + [e])
    ensures first.Some? ==> Repeats(es + [e], |es|, first.value)
  {
    mappings := Current(stack, e.indent, e.item);
    assert Increasing(stack);
    hide Represents, Shape, Repeats, NoDuplicates, Duplicates, WithCurrent;
    var current := mappings[|mappings| - 1];
    CurrentFinds(es, stack, mappings, e);
    if e.key in current.keys {
      first := Some(current.keys[e.key]);
    } else {
      RecordKeeps(es, stack, mappings, e);
      NoDuplicatesOneMore(es, e);
      mappings := Record(mappings, e);
      first := None;
    }
  }

  /** The whole check: one pass with a stack gives the verdict of the pairwise rule. */
  method Validate(lines: seq<Line>) returns (r: Outcome)
    ensures Verdict(lines, r)
  {
    hide Represents, NoDuplicates, Repeats;
    if AllBlank(lines) { return EmptyWorkflow; }
    var mappings: seq<Mapping> := [];
    var blockScalarIndent: Option<nat> := None;
    ghost var es: seq<Effective> := [];
    NothingYet();
    for n := 0 to |lines|
      invariant blockScalarIndent == BlockAfter(lines, n) && es == Effects(lines, n)
      invariant Clean(lines, n) && Represents(es, mappings)
    {
      var line := lines[n];
      if line.hasTab { return TabAt(n + 1); }
      if !line.content.Text? { continue; }
      var Text(indent, entry) := line.content;
      if blockScalarIndent.Some? {
        if indent > blockScalarIndent.value { continue; }
        blockScalarIndent := None;
      }
      if entry.None? { continue; }
      var keyIndent := KeyIndent(indent, entry.value);
      assert TakesPart(lines, n);
      if entry.value.key.None? { return BadKeyAt(n + 1); }
      var e := Effective(n + 1, keyIndent, entry.value.item, entry.value.key.value);
      var first: Option<nat>;
      mappings, first := Declare(mappings, es, e);
      if first.Some? { return DuplicateAt(n + 1, first.value); }
      es := es + [e];
      if entry.value.opensBlockScalar { blockScalarIndent := Some(keyIndent); }
    }
    return Accepted;
  }

  lemma NothingYet()
    ensures Represents([], []) && NoDuplicates([])
  {}
}
