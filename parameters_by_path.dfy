/**
 * `GetAllParametersByPathAsync`: page through the parameters under a path, ten at a time,
 * following each response's continuation token until a response has none, and collect
 * name -> (type, value), a later occurrence of a name overwriting an earlier one.
 * The service is modelled as the sequence of responses it gives, one per request.
 */
module ParametersByPath {
  import opened Wrappers

  datatype Parameter = Parameter(name: string, parameterType: string, value: string)

  datatype ParametersPage = ParametersPage(parameters: seq<Parameter>, nextToken: Option<string>)

  datatype ParametersRequest = ParametersRequest(
    path: string,
    maxResults: nat,
    recursive: bool,
    nextToken: Option<string>)

  type Parameters = map<string, (string, string)>

  /** `result[parameter.Name] = (Type, Value)` for each parameter in order. */
  function AddParameters(result: Parameters, ps: seq<Parameter>): Parameters
    decreases |ps|
  {
    if ps == [] then result
    else
      var p := ps[|ps| - 1];
      AddParameters(result, ps[..|ps| - 1])[p.name := (p.parameterType, p.value)]
  }

  /** The last parameter of `ps` named `name`, if any. */
  function LastNamed(ps: seq<Parameter>, name: string): Option<Parameter>
    decreases |ps|
  {
    if ps == [] then None
    else if ps[|ps| - 1].name == name then Some(ps[|ps| - 1])
    else LastNamed(ps[..|ps| - 1], name)
  }

  /** Every parameter of the given pages, in order. */
  function AllParameters(pages: seq<ParametersPage>): seq<Parameter>
    decreases |pages|
  {
    if pages == [] then [] else AllParameters(pages[..|pages| - 1]) + pages[|pages| - 1].parameters
  }

  /** The index of the first page without a continuation token, or -1. */
  function FinalPage(pages: seq<ParametersPage>): (n: int)
    ensures -1 <= n < |pages|
    ensures 0 <= n ==> pages[n].nextToken.None? && forall i :: 0 <= i < n ==> pages[i].nextToken.Some?
    ensures n < 0 ==> forall i :: 0 <= i < |pages| ==> pages[i].nextToken.Some?
  {
    if pages == [] then -1
    else if pages[0].nextToken.None? then 0
    else
      var n := FinalPage(pages[1..]);
      assert forall i :: 1 <= i < |pages| ==> pages[i] == pages[1..][i - 1];
      if n < 0 then -1 else n + 1
  }

  /** The `do ... while (NextToken != null)` loop over the responses, from `result`; `None` when they run out first. */
  function Collect(result: Parameters, pages: seq<ParametersPage>): Option<Parameters>
    decreases |pages|
  {
    if pages == [] then None
    else
      var next := AddParameters(result, pages[0].parameters);
      if pages[0].nextToken.None? then Some(next) else Collect(next, pages[1..])
  }

  /** After adding `ps`, a name is present exactly when it was before or occurs in `ps`, with the type and value of its last occurrence. */
  lemma {:induction false} AddParametersKeepsLastOccurrence(result: Parameters, ps: seq<Parameter>, name: string)
    ensures var r := AddParameters(result, ps);
      (name in r <==> name in result || LastNamed(ps, name).Some?)
      && (LastNamed(ps, name).Some? ==>
            r[name] == (LastNamed(ps, name).value.parameterType, LastNamed(ps, name).value.value))
      && (LastNamed(ps, name).None? && name in result ==> r[name] == result[name])
    decreases |ps|
  {
    if ps != [] {
      AddParametersKeepsLastOccurrence(result, ps[..|ps| - 1], name);
    }
  }

  lemma {:induction false} AddParametersConcat(result: Parameters, a: seq<Parameter>, b: seq<Parameter>)
    ensures AddParameters(result, a + b) == AddParameters(AddParameters(result, a), b)
    decreases |b|
  {
    if b == [] {
      assert a + b == a;
    } else {
      var init := b[..|b| - 1];
      AddParametersConcat(result, a, init);
      assert (a + b)[..|a + b| - 1] == a + init;
      assert (a + b)[|a + b| - 1] == b[|b| - 1];
    }
  }

  /**
   * The loop reads the responses up to and including the first without a token and gets
   * what adding all their parameters in order gives; it has no result when every response
   * carries a token.
   */
  lemma {:induction false} CollectReadsThroughFinalPage(result: Parameters, pages: seq<ParametersPage>)
    ensures var n := FinalPage(pages);
      (n < 0 ==> Collect(result, pages).None?)
      && (0 <= n ==> Collect(result, pages) == Some(AddParameters(result, AllParameters(pages[..n + 1]))))
    decreases |pages|
  {
    if pages != [] {
      var first := pages[0].parameters;
      assert AllParameters(pages[..1]) == first by {
        assert pages[..1][..0] == [];
      }
      if pages[0].nextToken.Some? {
        var rest := pages[1..];
        CollectReadsThroughFinalPage(AddParameters(result, first), rest);
        var n := FinalPage(pages);
        if 0 <= n {
          assert FinalPage(rest) == n - 1;
          AllParametersCons(pages, n + 1);
          AddParametersConcat(result, first, AllParameters(rest[..n]));
        }
      }
    }
  }

  /** The parameters of the first `m` pages are those of the first page, then those of the next `m - 1`. */
  lemma {:induction false} AllParametersCons(pages: seq<ParametersPage>, m: nat)
    requires 1 <= m <= |pages|
    ensures AllParameters(pages[..m]) == pages[0].parameters + AllParameters(pages[1..][..m - 1])
    decreases m
  {
    if m == 1 {
      assert pages[..1][..0] == [] && pages[1..][..0] == [];
    } else {
      AllParametersCons(pages, m - 1);
      assert pages[..m][..m - 1] == pages[..m - 1];
      assert pages[1..][..m - 1][..m - 2] == pages[1..][..m - 2];
      assert pages[..m][m - 1] == pages[1..][..m - 1][m - 2];
    }
  }

  /**
   * What the call returns: a name is present exactly when it occurs on one of the pages
   * read, with the type and value of its last occurrence.
   */
  lemma ResultIsLastOccurrence(pages: seq<ParametersPage>, name: string)
    requires 0 <= FinalPage(pages)
    ensures var all := AllParameters(pages[..FinalPage(pages) + 1]);
      var r := Collect(map[], pages);
      r.Some?
      && (name in r.value <==> LastNamed(all, name).Some?)
      && (name in r.value ==> r.value[name] == (LastNamed(all, name).value.parameterType, LastNamed(all, name).value.value))
  {
    CollectReadsThroughFinalPage(map[], pages);
    AddParametersKeepsLastOccurrence(map[], AllParameters(pages[..FinalPage(pages) + 1]), name);
  }

  /**
   * The do/while loop itself. It sends one request per response, the first without a
   * token and each later one with the token of the response before it, and returns
   * `None` when the modelled responses run out before one without a token.
   */
  method GetAllParametersByPath(path: string, pages: seq<ParametersPage>)
    returns (result: Option<Parameters>, requests: seq<ParametersRequest>)
    ensures result == Collect(map[], pages)
    ensures |requests| <= |pages| && (pages != [] ==> 1 <= |requests|)
    ensures forall i :: 0 <= i < |requests| ==>
      requests[i] == ParametersRequest(path, 10, true, if i == 0 then None else pages[i - 1].nextToken)
    ensures result.Some? ==> |requests| == FinalPage(pages) + 1
    ensures result.None? ==> |requests| == |pages|
  {
    var acc: Parameters := map[];
    var request := ParametersRequest(path, 10, true, None);
    var k := 0;
    requests := [];
    while true
      invariant 0 <= k <= |pages| && |requests| == k
      invariant Collect(acc, pages[k..]) == Collect(map[], pages)
      invariant request == ParametersRequest(path, 10, true, if k == 0 then None else pages[k - 1].nextToken)
      invariant forall i :: 0 <= i < k ==>
        requests[i] == ParametersRequest(path, 10, true, if i == 0 then None else pages[i - 1].nextToken)
      invariant forall i :: 0 <= i < k ==> pages[i].nextToken.Some?
      decreases |pages| - k
    {
      if k == |pages| {
        FinalPageAbsent(pages);
        result := None;
        return;
      }
      requests := requests + [request];
      var response := pages[k];
      ghost var before := acc;
      for j := 0 to |response.parameters|
        invariant acc == AddParameters(before, response.parameters[..j])
      {
        var parameter := response.parameters[j];
        assert response.parameters[..j + 1][..j] == response.parameters[..j];
        acc := acc[parameter.name := (parameter.parameterType, parameter.value)];
      }
      assert response.parameters[..|response.parameters|] == response.parameters;
      assert pages[k..][0] == response && pages[k..][1..] == pages[k + 1..];
      request := request.(nextToken := response.nextToken);
      k := k + 1;
      if request.nextToken.None? {
        result := Some(acc);
        return;
      }
    }
  }

  lemma FinalPageAbsent(pages: seq<ParametersPage>)
    requires forall i :: 0 <= i < |pages| ==> pages[i].nextToken.Some?
    ensures FinalPage(pages) < 0 && Collect(map[], pages).None?
  {
    CollectReadsThroughFinalPage(map[], pages);
  }
}
