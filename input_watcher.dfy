/**
 * The input watcher: on an `input` or `change` event it reads the target
 * form field's value (and, for radios and checkboxes, whether it is
 * checked), and reports it unless the last value reported for that field
 * is the same. When a named radio becomes checked, the other radios of
 * its group are reported as unchecked through the same cache.
 */
module InputWatcher {
  import opened Wrappers
  import opened Dom
  import opened Captured
  import opened RecorderUtils

  /** `inputValue`: the field's `value` (undefined on an element without one) and its checked state. */
  datatype InputValue = InputValue(text: Option<string>, isChecked: bool)

  /** The data of an Input event: the target's mirror id and the value reported. */
  datatype InputEvent = InputEvent(id: int, text: Option<string>, isChecked: bool)

  /** The cache after a step and the events reported by it, in order. */
  datatype Dedup = Dedup(cache: map<NodeRef, InputValue>, events: seq<InputEvent>)

  const InputTags: seq<string> := ["INPUT", "TEXTAREA", "SELECT"]

  /** The target exists, has a (non-empty) `tagName`, and that tag is one of the form-field tags. */
  predicate IsInputTarget(d: Dom, target: Option<NodeRef>)
    requires target.Some? ==> target.value in d.nodes
  {
    match target
    case None => false
    case Some(t) =>
      match TagName(d, t)
      case None => false
      case Some(tag) => tag != "" && tag in InputTags
  }

  /** `{ text: value, isChecked }`, with `checked` read only for radios and checkboxes. */
  function ValueOf(d: Dom, t: NodeRef): (r: InputValue)
    requires t in d.nodes
    ensures r.text == d.nodes[t].state.value
    ensures r.isChecked ==> d.nodes[t].state.inputType in {"radio", "checkbox"}
  {
    var s := d.nodes[t].state;
    InputValue(s.value, if s.inputType == "radio" || s.inputType == "checkbox" then s.checked else false)
  }

  /**
   * `cbWithDedup(target, v)`: report `v` when nothing is cached for the
   * target or the cached text or checked state differs, and cache it.
   */
  function Record(cnode: map<NodeRef, NodeCaptured>, cache: map<NodeRef, InputValue>, target: NodeRef, v: InputValue): (r: Dedup)
    ensures r.cache == cache[target := v]
    ensures r.events == [] <==> target in cache && cache[target] == v
    ensures r.events != [] ==> r.events == [InputEvent(GetId(cnode, target), v.text, v.isChecked)]
  {
    if target !in cache || cache[target].text != v.text || cache[target].isChecked != v.isChecked then
      Dedup(cache[target := v], [InputEvent(GetId(cnode, target), v.text, v.isChecked)])
    else
      Dedup(cache, [])
  }

  /** The radio fan-out over the first `i` radios of the group: every one but the target, reported unchecked. */
  function FanOut(d: Dom, cnode: map<NodeRef, NodeCaptured>, cache: map<NodeRef, InputValue>, target: NodeRef,
                  radios: seq<NodeRef>, i: nat): Dedup
    requires i <= |radios| && forall k :: 0 <= k < |radios| ==> radios[k] in d.nodes
  {
    if i == 0 then Dedup(cache, [])
    else
      var q := FanOut(d, cnode, cache, target, radios, i - 1);
      var el := radios[i - 1];
      if el != target then
        var r := Record(cnode, q.cache, el, InputValue(d.nodes[el].state.value, false));
        Dedup(r.cache, q.events + r.events)
      else q
  }

  /** A checked radio with a name: the case that fans out to the rest of its group. */
  predicate FansOut(d: Dom, t: NodeRef)
    requires t in d.nodes
  {
    d.nodes[t].state.inputType == "radio" && d.nodes[t].state.name != "" && ValueOf(d, t).isChecked
  }

  /**
   * `capture(event)`: nothing for a target that is not a form field;
   * otherwise the target's value through the cache, then, for a named
   * checked radio, the fan-out over `radios`, the elements matched by
   * `input[type="radio"][name="<name>"]` in document order.
   */
  function Captures(d: Dom, cnode: map<NodeRef, NodeCaptured>, cache: map<NodeRef, InputValue>, target: Option<NodeRef>,
                   radios: seq<NodeRef>): (r: Dedup)
    requires target.Some? ==> target.value in d.nodes
    requires forall k :: 0 <= k < |radios| ==> radios[k] in d.nodes
    ensures !IsInputTarget(d, target) ==> r == Dedup(cache, [])
  {
    if !IsInputTarget(d, target) then Dedup(cache, [])
    else
      var t := target.value;
      var first := Record(cnode, cache, t, ValueOf(d, t));
      if FansOut(d, t) then
        var rest := FanOut(d, cnode, first.cache, t, radios, |radios|);
        Dedup(rest.cache, first.events + rest.events)
      else first
  }

  // ------------------------------------------------------------ properties

  /** A value reported twice in a row for the same field is reported once. */
  lemma RecordTwiceReportsOnce(cnode: map<NodeRef, NodeCaptured>, cache: map<NodeRef, InputValue>, target: NodeRef, v: InputValue)
    ensures var r := Record(cnode, cache, target, v);
            Record(cnode, r.cache, target, v) == Dedup(r.cache, [])
  {
  }

  /**
   * The fan-out caches every group member other than the target as
   * unchecked with its own value, leaves every other entry, the target's
   * included, as it was, and reports only unchecked values, at most one
   * per radio.
   */
  lemma {:induction false} FanOutCache(d: Dom, cnode: map<NodeRef, NodeCaptured>, cache: map<NodeRef, InputValue>, target: NodeRef,
                                       radios: seq<NodeRef>, i: nat, m: NodeRef)
    requires i <= |radios| && forall k :: 0 <= k < |radios| ==> radios[k] in d.nodes
    ensures var r := FanOut(d, cnode, cache, target, radios, i);
            && (m in radios[..i] && m != target ==> m in r.cache && r.cache[m] == InputValue(d.nodes[m].state.value, false))
            && (!(m in radios[..i] && m != target) ==> (m in r.cache <==> m in cache) && (m in cache ==> r.cache[m] == cache[m]))
            && |r.events| <= i
            && forall k :: 0 <= k < |r.events| ==> !r.events[k].isChecked
  {
    if i > 0 {
      FanOutCache(d, cnode, cache, target, radios, i - 1, m);
      assert radios[..i] == radios[..i - 1] + [radios[i - 1]];
    }
  }

  /** When the cache already holds every other group member as unchecked, the fan-out reports nothing and changes nothing. */
  lemma {:induction false} FanOutQuiet(d: Dom, cnode: map<NodeRef, NodeCaptured>, cache: map<NodeRef, InputValue>, target: NodeRef,
                                       radios: seq<NodeRef>, i: nat)
    requires i <= |radios| && forall k :: 0 <= k < |radios| ==> radios[k] in d.nodes
    requires forall k :: 0 <= k < |radios| && radios[k] != target ==>
               radios[k] in cache && cache[radios[k]] == InputValue(d.nodes[radios[k]].state.value, false)
    ensures FanOut(d, cnode, cache, target, radios, i) == Dedup(cache, [])
  {
    if i > 0 {
      FanOutQuiet(d, cnode, cache, target, radios, i - 1);
      var el := radios[i - 1];
      if el != target {
        assert cache[el := InputValue(d.nodes[el].state.value, false)] == cache;
      }
    }
  }

  /**
   * After a capture the target's cache entry is its own new value: the
   * fan-out does not re-send or overwrite it, even when it is listed in
   * its own group.
   */
  lemma CaptureCachesTarget(d: Dom, cnode: map<NodeRef, NodeCaptured>, cache: map<NodeRef, InputValue>, t: NodeRef, radios: seq<NodeRef>)
    requires t in d.nodes && forall k :: 0 <= k < |radios| ==> radios[k] in d.nodes
    requires IsInputTarget(d, Some(t))
    ensures var r := Captures(d, cnode, cache, Some(t), radios);
            t in r.cache && r.cache[t] == ValueOf(d, t)
  {
    if FansOut(d, t) {
      FanOutCache(d, cnode, Record(cnode, cache, t, ValueOf(d, t)).cache, t, radios, |radios|, t);
    }
  }

  /**
   * Capturing the same event twice against the same document reports
   * nothing the second time and leaves the cache as the first left it.
   */
  lemma CaptureTwiceReportsOnce(d: Dom, cnode: map<NodeRef, NodeCaptured>, cache: map<NodeRef, InputValue>, target: Option<NodeRef>,
                                radios: seq<NodeRef>)
    requires target.Some? ==> target.value in d.nodes
    requires forall k :: 0 <= k < |radios| ==> radios[k] in d.nodes
    ensures var r1 := Captures(d, cnode, cache, target, radios);
            Captures(d, cnode, r1.cache, target, radios) == Dedup(r1.cache, [])
  {
    if IsInputTarget(d, target) {
      var t := target.value;
      var v := ValueOf(d, t);
      var r1 := Captures(d, cnode, cache, target, radios);
      CaptureCachesTarget(d, cnode, cache, t, radios);
      var first := Record(cnode, r1.cache, t, v);
      assert first == Dedup(r1.cache, []);
      if FansOut(d, t) {
        var c1 := Record(cnode, cache, t, v).cache;
        forall k | 0 <= k < |radios| && radios[k] != t
          ensures radios[k] in r1.cache && r1.cache[radios[k]] == InputValue(d.nodes[radios[k]].state.value, false)
        {
          FanOutCache(d, cnode, c1, t, radios, |radios|, radios[k]);
          assert radios[k] in radios[..|radios|];
        }
        FanOutQuiet(d, cnode, r1.cache, t, radios, |radios|);
      }
    }
  }

  /**
   * Every report carries the target's mirror id (-1 when it was never
   * captured); the first report, if any, is the target's own value.
   */
  lemma CaptureReportsTargetFirst(d: Dom, cnode: map<NodeRef, NodeCaptured>, cache: map<NodeRef, InputValue>, t: NodeRef, radios: seq<NodeRef>)
    requires t in d.nodes && forall k :: 0 <= k < |radios| ==> radios[k] in d.nodes
    requires IsInputTarget(d, Some(t))
    ensures var r := Captures(d, cnode, cache, Some(t), radios);
            var v := ValueOf(d, t);
            && (t !in cache || cache[t] != v ==> |r.events| > 0 && r.events[0] == InputEvent(GetId(cnode, t), v.text, v.isChecked))
            && (t !in cnode && (t !in cache || cache[t] != v) ==> r.events[0].id == -1)
            && (!FansOut(d, t) ==> |r.events| <= 1)
  {
  }

  // ------------------------------------------------------------ the class

  /** `InputWatcher`: the `lastInputValueMap` cache, keyed by event target. */
  class InputWatcher {
    var lastInputValueMap: map<NodeRef, InputValue>

    constructor()
      ensures lastInputValueMap == map[]
    {
      lastInputValueMap := map[];
    }

    /** `cbWithDedup(target, v)`: the events handed to the callback, in order. */
    method CbWithDedup(cnode: map<NodeRef, NodeCaptured>, target: NodeRef, v: InputValue) returns (events: seq<InputEvent>)
      modifies this`lastInputValueMap
      ensures Dedup(lastInputValueMap, events) == Record(cnode, old(lastInputValueMap), target, v)
    {
      events := [];
      if target !in lastInputValueMap || lastInputValueMap[target].text != v.text
         || lastInputValueMap[target].isChecked != v.isChecked {
        lastInputValueMap := lastInputValueMap[target := v];
        events := [InputEvent(GetId(cnode, target), v.text, v.isChecked)];
      }
    }

    /** `capture(event)` for an event on `target`; `radios` is what the group query returns. */
    method Capture(d: Dom, cnode: map<NodeRef, NodeCaptured>, target: Option<NodeRef>, radios: seq<NodeRef>)
      returns (events: seq<InputEvent>)
      requires target.Some? ==> target.value in d.nodes
      requires forall k :: 0 <= k < |radios| ==> radios[k] in d.nodes
      modifies this`lastInputValueMap
      ensures Dedup(lastInputValueMap, events) == Captures(d, cnode, old(lastInputValueMap), target, radios)
    {
      if target.None? {
        return [];
      }
      var t := target.value;
      var tag := TagName(d, t);
      if tag.None? || tag.value == "" || tag.value !in InputTags {
        return [];
      }
      var v := ValueOf(d, t);
      events := CbWithDedup(cnode, t, v);
      if FansOut(d, t) {
        ghost var start := lastInputValueMap;
        ghost var first := events;
        for i := 0 to |radios|
          invariant |first| <= |events| && events[..|first|] == first
          invariant Dedup(lastInputValueMap, events[|first|..]) == FanOut(d, cnode, start, t, radios, i)
        {
          var el := radios[i];
          if el != t {
            var more := CbWithDedup(cnode, el, InputValue(d.nodes[el].state.value, false));
            events := events + more;
          }
        }
        assert events == first + events[|first|..];
      }
    }
  }
}
