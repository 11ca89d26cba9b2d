/** `ControllerMetadata`: the per-class, append-only list of interceptors,
    kept in the side table under its own namespace. */
module ControllerMetadata {
  import opened Wrappers
  import opened Metadata

  /** The controller feature's namespace. */
  const Prefix: string := "core/component/controller"

  /** The namespace interceptor lists live under. */
  const InterceptorPrefix: string := Prefix + "-interceptors"

  /** The interceptors recorded for `cls`; the empty list when nothing is stored. */
  function GetInterceptors<T>(t: Table<seq<T>>, cls: Class): (r: seq<T>)
    ensures Key(InterceptorPrefix, cls) !in t ==> r == []
    ensures Key(InterceptorPrefix, cls) in t ==> r == t[Key(InterceptorPrefix, cls)]
  {
    match GetClassMetadata(t, InterceptorPrefix, cls)
    case Some(stored) => stored
    case None => []
  }

  /** Appends one interceptor to the list of `cls`. Every other class's list,
      and everything stored under the plain controller namespace, is untouched. */
  function SetInterceptor<T>(t: Table<seq<T>>, cls: Class, interceptor: T): (t': Table<seq<T>>)
    ensures GetInterceptors(t', cls) == GetInterceptors(t, cls) + [interceptor]
    ensures |GetInterceptors(t', cls)| == |GetInterceptors(t, cls)| + 1
    ensures forall other :: other != cls ==> GetInterceptors(t', other) == GetInterceptors(t, other)
    ensures forall c :: GetClassMetadata(t', Prefix, c) == GetClassMetadata(t, Prefix, c)
  {
    SetClassMetadata(t, InterceptorPrefix, cls, GetInterceptors(t, cls) + [interceptor])
  }

  /** `setInterceptor` applied once per element of `interceptors`, in order. */
  function SetInterceptors<T>(t: Table<seq<T>>, cls: Class, interceptors: seq<T>): Table<seq<T>>
    decreases |interceptors|
  {
    if |interceptors| == 0 then t
    else SetInterceptors(SetInterceptor(t, cls, interceptors[0]), cls, interceptors[1..])
  }

  /** A run of `setInterceptor` calls extends the class's list by exactly the
      calls' arguments, in call order. */
  lemma {:induction false} SetInterceptorsAppendsInOrder<T>(t: Table<seq<T>>, cls: Class, interceptors: seq<T>)
    ensures GetInterceptors(SetInterceptors(t, cls, interceptors), cls) == GetInterceptors(t, cls) + interceptors
    decreases |interceptors|
  {
    if |interceptors| > 0 {
      var t1 := SetInterceptor(t, cls, interceptors[0]);
      SetInterceptorsAppendsInOrder(t1, cls, interceptors[1..]);
      assert [interceptors[0]] + interceptors[1..] == interceptors;
    }
  }

  /** For a class with nothing stored, in any table, n calls leave exactly
      those n interceptors, in call order. */
  lemma FreshClassCollectsCallOrder<T>(t: Table<seq<T>>, cls: Class, interceptors: seq<T>)
    requires Key(InterceptorPrefix, cls) !in t
    ensures GetInterceptors(SetInterceptors(t, cls, interceptors), cls) == interceptors
  {
    SetInterceptorsAppendsInOrder(t, cls, interceptors);
  }

  /** A run of calls on one class leaves every other class's list as it was. */
  lemma {:induction false} SetInterceptorsIsolatesClasses<T>(t: Table<seq<T>>, cls: Class, other: Class, interceptors: seq<T>)
    requires other != cls
    ensures GetInterceptors(SetInterceptors(t, cls, interceptors), other) == GetInterceptors(t, other)
    decreases |interceptors|
  {
    if |interceptors| > 0 {
      SetInterceptorsIsolatesClasses(SetInterceptor(t, cls, interceptors[0]), cls, other, interceptors[1..]);
    }
  }

  /** The interceptor namespace is a different key from the controller
      namespace, so no interceptor write reaches a controller entry. */
  lemma InterceptorNamespaceIsSeparate<T>(t: Table<seq<T>>, cls: Class, interceptor: T, c: Class)
    ensures InterceptorPrefix != Prefix
    ensures Key(Prefix, c) in SetInterceptor(t, cls, interceptor) <==> Key(Prefix, c) in t
  {
    assert |InterceptorPrefix| == |Prefix| + 13;
    assert GetClassMetadata(SetInterceptor(t, cls, interceptor), Prefix, c) == GetClassMetadata(t, Prefix, c);
  }
}
