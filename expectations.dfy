/** The fluent expectation builder. Every setter changes the builder in place
    and returns the same builder, so calls chain. The request criteria are read
    by the matcher; the response part is what the handler writes. */
module Expectations {
  import opened Http
  import opened Matcher

  /** The argument of RespWithBody and ReqBody: raw bytes, or a structured value,
      which the JSON codec has already encoded into `bytes`. */
  datatype BodyArg = Raw(bytes: Bytes) | Structured(bytes: Bytes)

  class ExpectationBuilder {
    var httpMethod: string
    var urlPattern: string

    var reqHeaders: Header
    var reqExactBody: Option<Bytes>
    var reqContainBody: Option<Bytes>
    var reqPathParams: map<string, string>
    var reqQueryParams: map<string, string>

    var respStatus: int
    var respHeaders: Header
    var respBody: Bytes

    var times: int

    /** EXPECT: one expected call, every criterion unset, nothing declared. */
    constructor Expect()
      ensures times == 1
      ensures httpMethod == "" && urlPattern == ""
      ensures reqHeaders == map[] && reqExactBody == None && reqContainBody == None
      ensures reqPathParams == map[] && reqQueryParams == map[]
      ensures respStatus == 0 && respHeaders == map[] && respBody == []
    {
      times := 1;
      httpMethod, urlPattern := "", "";
      reqHeaders, reqExactBody, reqContainBody := map[], None, None;
      reqPathParams, reqQueryParams := map[], map[];
      respStatus, respHeaders, respBody := 0, map[], [];
    }

    /** The criteria the matcher compares a request with. */
    function RequestCriteria(): Criteria
      reads this
    {
      Criteria(httpMethod, reqHeaders, reqExactBody, reqContainBody, reqPathParams, reqQueryParams)
    }

    method Times(t: int) returns (self: ExpectationBuilder)
      modifies this`times
      ensures self == this && times == t
    {
      times := t;
      self := this;
    }

    method Method(m: string) returns (self: ExpectationBuilder)
      modifies this`httpMethod
      ensures self == this && httpMethod == m
    {
      httpMethod := m;
      self := this;
    }

    method Path(url: string) returns (self: ExpectationBuilder)
      modifies this`urlPattern
      ensures self == this && urlPattern == url
    {
      urlPattern := url;
      self := this;
    }

    method RespWithStatus(s: int) returns (self: ExpectationBuilder)
      modifies this`respStatus
      ensures self == this && respStatus == s
    {
      respStatus := s;
      self := this;
    }

    /** Appends `v` to the values declared for response header `k`; earlier values stay, in order. */
    method RespWithHeader(k: string, v: string) returns (self: ExpectationBuilder)
      modifies this`respHeaders
      ensures self == this
      ensures respHeaders == old(respHeaders)[k := Values(old(respHeaders), k) + [v]]
    {
      respHeaders := respHeaders[k := Values(respHeaders, k) + [v]];
      self := this;
    }

    /** Raw bytes are stored verbatim as the response body, a structured value as its encoding. */
    method RespWithBody(b: BodyArg) returns (self: ExpectationBuilder)
      modifies this`respBody
      ensures self == this && respBody == b.bytes
    {
      respBody := b.bytes;
      self := this;
    }

    /** As written: raw bytes go to the RESPONSE body and leave the exact-body
        criterion as it was; only a structured value sets the criterion. */
    method ReqBody(b: BodyArg) returns (self: ExpectationBuilder)
      modifies this`respBody, this`reqExactBody
      ensures self == this
      ensures b.Raw? ==> respBody == b.bytes && reqExactBody == old(reqExactBody)
      ensures b.Structured? ==> reqExactBody == Some(b.bytes) && respBody == old(respBody)
    {
      if b.Raw? {
        respBody := b.bytes;
        return this;
      }
      reqExactBody := Some(b.bytes);
      self := this;
    }

    /** ReqBody as its documentation describes it: either form of argument sets
        the exact request body criterion, and nothing else changes. */
    method ReqBodyIntended(b: BodyArg) returns (self: ExpectationBuilder)
      modifies this`reqExactBody
      ensures self == this && reqExactBody == Some(b.bytes)
    {
      reqExactBody := Some(b.bytes);
      self := this;
    }

    /** The request body must contain `s` (a Go string, taken as its bytes). */
    method ReqBodyContains(s: Bytes) returns (self: ExpectationBuilder)
      modifies this`reqContainBody
      ensures self == this && reqContainBody == Some(s)
    {
      reqContainBody := Some(s);
      self := this;
    }

    /** Sets the single expected value of path parameter `k`, replacing an earlier one. */
    method ReqPathParam(k: string, v: string) returns (self: ExpectationBuilder)
      modifies this`reqPathParams
      ensures self == this && reqPathParams == old(reqPathParams)[k := v]
    {
      reqPathParams := reqPathParams[k := v];
      self := this;
    }

    /** Sets the single expected value of query or form parameter `k`, replacing an earlier one. */
    method ReqQueryParam(k: string, v: string) returns (self: ExpectationBuilder)
      modifies this`reqQueryParams
      ensures self == this && reqQueryParams == old(reqQueryParams)[k := v]
    {
      reqQueryParams := reqQueryParams[k := v];
      self := this;
    }

    /** Appends `v` to the values request header `k` must carry; earlier values stay, in order. */
    method ReqHeader(k: string, v: string) returns (self: ExpectationBuilder)
      modifies this`reqHeaders
      ensures self == this
      ensures reqHeaders == old(reqHeaders)[k := Values(old(reqHeaders), k) + [v]]
    {
      reqHeaders := reqHeaders[k := Values(reqHeaders, k) + [v]];
      self := this;
    }
  }
}
