/**
 * components/ui/use-toast.tsx: the provider's list of toasts, appended to by
 * `toast` and filtered by `removeToast`, and the `useToast` context lookup.
 */
module Toasts {
  import opened Wrappers
  import opened Lists

  datatype Variant = Default | Destructive

  /** `ToastType`: a title, a description and an optional variant (absent reads as default). */
  datatype ToastType = ToastType(title: string, description: string, variant: Variant)

  const NO_PROVIDER: string := "useToast must be used within a ToastProvider"

  /** The `ToastProvider` component's state. */
  class ToastProvider {
    var toasts: seq<ToastType>

    /** The list starts empty. */
    constructor()
      ensures toasts == []
    {
      toasts := [];
    }

    /** `toast(t)`: `[...prev, t]`. */
    method Toast(t: ToastType)
      modifies this
      ensures toasts == old(toasts) + [t]
      ensures |toasts| == |old(toasts)| + 1 && toasts[..|old(toasts)|] == old(toasts)
    {
      toasts := toasts + [t];
    }

    /** `removeToast(index)`: every toast except the one at index; an index out of range changes nothing. */
    method RemoveToast(index: int)
      modifies this
      ensures toasts == WithoutIndex(old(toasts), index)
    {
      toasts := WithoutIndex(toasts, index);
    }
  }

  /** `useToast()`: the provider's context, or the error thrown outside one. */
  function UseToast(context: Option<ToastProvider>): (r: Result<ToastProvider>)
    ensures r.Success? <==> context.Some?
    ensures r.Success? ==> r.value == context.value
    ensures r.Failure? ==> r.error == NO_PROVIDER
  {
    match context
    case Some(provider) => Success(provider)
    case None => Failure(NO_PROVIDER)
  }
}
