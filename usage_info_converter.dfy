/**
 * Turning found occurrences into usages
 * (com.intellij.usages.UsageInfoToUsageConverter): an occurrence of a search
 * for variables, found at a reference expression, becomes a usage that knows
 * whether it reads or writes; every other occurrence becomes a plain usage.
 * The PSI queries (is the element a variable, is it a reference expression,
 * is it read or written there, does it resolve to a simple property setter)
 * are answers carried by the element values; the registered usage
 * converters are a parameter.
 */
module UsageInfoToUsageConverter {
  import opened Wrappers

  /** What the language layer answers about a reference expression. */
  datatype ReferenceFacts = ReferenceFacts(
    accessedForReading: bool,     // PsiUtil.isAccessedForReading
    accessedForWriting: bool,     // PsiUtil.isAccessedForWriting
    resolvesToSimpleSetter: bool) // resolve() is a PsiMethod and PropertyUtil.isSimplePropertySetter

  /** A PSI element: whether it is a `PsiVariable`, and the facts when it is a `PsiReferenceExpression`. */
  datatype PsiElement = PsiElement(id: nat, isVariable: bool, reference: Option<ReferenceFacts>)

  /** An occurrence found by a search; its element may be null. */
  datatype UsageInfo = UsageInfo(id: nat, element: Option<PsiElement>)

  /** The two adapters the converter builds, and whatever a registered converter wraps them in. */
  datatype Usage =
    | Plain(info: UsageInfo)
    | ReadWrite(info: UsageInfo, read: bool, write: bool)
    | Wrapped(converter: nat, inner: Usage)

  /** The targets of a search; array entries may be null. */
  datatype TargetElementsDescriptor = TargetElementsDescriptor(
    primary: seq<Option<PsiElement>>,
    additional: seq<Option<PsiElement>>)

  /** `TargetElementsDescriptor(PsiElement[], PsiElement[])`: a null array becomes an empty one. */
  function NewDescriptor(primary: Option<seq<Option<PsiElement>>>, additional: Option<seq<Option<PsiElement>>>): (d: TargetElementsDescriptor)
    ensures primary.Some? ==> d.primary == primary.value
    ensures primary.None? ==> d.primary == []
    ensures additional.Some? ==> d.additional == additional.value
    ensures additional.None? ==> d.additional == []
  {
    TargetElementsDescriptor(
      if primary.Some? then primary.value else [],
      if additional.Some? then additional.value else [])
  }

  /** `TargetElementsDescriptor(PsiElement[])`: no additional targets. */
  function NewDescriptorOfPrimary(primary: Option<seq<Option<PsiElement>>>): (d: TargetElementsDescriptor)
    ensures d.additional == []
    ensures d.primary == if primary.Some? then primary.value else []
  {
    NewDescriptor(primary, Some([]))
  }

  /** `TargetElementsDescriptor(PsiElement)`: the one element is the only primary target. */
  function NewDescriptorOfElement(element: Option<PsiElement>): (d: TargetElementsDescriptor)
    ensures d.primary == [element] && d.additional == []
  {
    NewDescriptorOfPrimary(Some([element]))
  }

  predicate IsVariable(e: Option<PsiElement>)
  {
    e.Some? && e.value.isVariable
  }

  /** The targets are all variables, and there is at least one. */
  predicate AllVariables(elements: seq<Option<PsiElement>>)
  {
    |elements| > 0 && forall k :: 0 <= k < |elements| ==> IsVariable(elements[k])
  }

  /** `isReadWriteAccessibleElements`: scans the targets for one that is not a variable. */
  method IsReadWriteAccessibleElements(elements: seq<Option<PsiElement>>) returns (r: bool)
    ensures r <==> |elements| > 0 && forall k :: 0 <= k < |elements| ==> IsVariable(elements[k])
  {
    if |elements| == 0 {
      return false;
    }
    var idx := 0;
    while idx < |elements|
      invariant 0 <= idx <= |elements|
      invariant forall k :: 0 <= k < idx ==> IsVariable(elements[k])
    {
      if !IsVariable(elements[idx]) {
        return false;
      }
      idx := idx + 1;
    }
    return true;
  }

  datatype Access = Access(read: bool, write: bool)

  /**
   * `isAccessedForReading`: the access the language layer reports, except that
   * a reference that is not written but resolves to a simple property setter
   * counts as a write and not as a read.
   */
  function AccessOf(ref: ReferenceFacts): (a: Access)
    ensures a.write <==> ref.accessedForWriting || ref.resolvesToSimpleSetter
    ensures a.read <==> ref.accessedForReading && (ref.accessedForWriting || !ref.resolvesToSimpleSetter)
    ensures ref.accessedForWriting ==> a == Access(ref.accessedForReading, true)
    ensures !ref.accessedForWriting && ref.resolvesToSimpleSetter ==> a == Access(false, true)
  {
    var reading := ref.accessedForReading;
    var writing := ref.accessedForWriting;
    if !writing && ref.resolvesToSimpleSetter then Access(false, true)
    else Access(reading, writing)
  }

  /**
   * `_convert`: a read/write usage exactly when every primary target is a
   * variable and the occurrence is at a reference expression; a plain usage
   * otherwise. Either way it wraps the occurrence it was given.
   */
  function ConvertInfo(descriptor: TargetElementsDescriptor, info: UsageInfo): (u: Usage)
    ensures u.Plain? || u.ReadWrite?
    ensures u.info == info
    ensures u.ReadWrite? <==> AllVariables(descriptor.primary) && info.element.Some? && info.element.value.reference.Some?
    ensures u.ReadWrite? ==> Access(u.read, u.write) == AccessOf(info.element.value.reference.value)
  {
    if AllVariables(descriptor.primary) && info.element.Some? && info.element.value.reference.Some? then
      var access := AccessOf(info.element.value.reference.value);
      ReadWrite(info, access.read, access.write)
    else
      Plain(info)
  }

  /** The registered converters applied one after the other, in registration order. */
  function ApplyConverters(u: Usage, converters: seq<Usage -> Usage>): Usage
    decreases |converters|
  {
    if converters == [] then u else ApplyConverters(converters[0](u), converters[1..])
  }

  /** Applying two groups of converters is applying them in turn. */
  lemma {:induction false} ApplyConvertersAppend(u: Usage, first: seq<Usage -> Usage>, second: seq<Usage -> Usage>)
    ensures ApplyConverters(u, first + second) == ApplyConverters(ApplyConverters(u, first), second)
    decreases |first|
  {
    if first != [] {
      assert (first + second)[1..] == first[1..] + second;
      ApplyConvertersAppend(first[0](u), first[1..], second);
    } else {
      assert first + second == second;
    }
  }

  /** `convert(descriptor, usageInfo)`: `_convert`, then every registered converter in order. */
  method Convert(descriptor: TargetElementsDescriptor, info: UsageInfo, converters: seq<Usage -> Usage>) returns (u: Usage)
    ensures u == ApplyConverters(ConvertInfo(descriptor, info), converters)
  {
    u := ConvertInfo(descriptor, info);
    var i := 0;
    while i < |converters|
      invariant 0 <= i <= |converters|
      invariant ApplyConverters(u, converters[i..]) == ApplyConverters(ConvertInfo(descriptor, info), converters)
    {
      assert converters[i..][1..] == converters[i + 1..];
      u := converters[i](u);
      i := i + 1;
    }
  }

  /** `convert(descriptor, usageInfos)`: a new array whose entry `i` converts occurrence `i`. */
  method ConvertAll(descriptor: TargetElementsDescriptor, infos: seq<UsageInfo>, converters: seq<Usage -> Usage>)
    returns (usages: array<Usage>)
    ensures fresh(usages)
    ensures usages.Length == |infos|
    ensures forall i :: 0 <= i < |infos| ==> usages[i] == ApplyConverters(ConvertInfo(descriptor, infos[i]), converters)
  {
    usages := new Usage[|infos|];
    var i := 0;
    while i < usages.Length
      invariant 0 <= i <= usages.Length
      invariant forall k :: 0 <= k < i ==> usages[k] == ApplyConverters(ConvertInfo(descriptor, infos[k]), converters)
    {
      usages[i] := Convert(descriptor, infos[i], converters);
      i := i + 1;
    }
  }
}
