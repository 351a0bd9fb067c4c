/** The pricing operator L Q = kappa (gamma - r) Q_r + sigma^2/2 Q_rr - r Q,
    discretised with centred differences on the rate grid: a three-point
    stencil whose weights every finite-difference scheme shares. */
module Operator {
  import opened Mesh

  /** Half the diffusion weight, sigma^2 / (2 dr^2). */
  function Diffusion(p: Params): real
    requires Valid(p)
  {
    Sq(p.sigma) / (2.0 * Sq(Dr(p)))
  }

  /** The centred drift weight kappa (gamma - r) / (2 dr). */
  function Drift(p: Params, r: real): real
    requires Valid(p)
  {
    p.kappa * (p.gamma - r) / (2.0 * Dr(p))
  }

  /** Weight of the left neighbour. */
  function Lower(p: Params, r: real): real
    requires Valid(p)
  {
    Diffusion(p) - Drift(p, r)
  }

  /** Weight of the node itself. */
  function Centre(p: Params, r: real): real
    requires Valid(p)
  {
    -(r + 2.0 * Diffusion(p))
  }

  /** Weight of the right neighbour. */
  function Upper(p: Params, r: real): real
    requires Valid(p)
  {
    Diffusion(p) + Drift(p, r)
  }

  /** The discrete operator at rate r applied to the values (qm, q, qp) at
      the left neighbour, the node and the right neighbour. */
  function Apply(p: Params, r: real, qm: real, q: real, qp: real): real
    requires Valid(p)
  {
    Lower(p, r) * qm + Centre(p, r) * q + Upper(p, r) * qp
  }

  /** The operator written the way the finite-difference quotients read:
      drift times the centred first difference, plus half sigma^2 times the
      second difference, minus discounting. */
  function Quotients(p: Params, r: real, qm: real, q: real, qp: real): real
    requires Valid(p)
  {
    var dQ := (qp - qm) / (2.0 * Dr(p));
    var d2Q := (qp - 2.0 * q + qm) / Sq(Dr(p));
    p.kappa * (p.gamma - r) * dQ + 0.5 * Sq(p.sigma) * d2Q - r * q
  }

  /** The weights sum to -r: the stencil differentiates constants to zero
      and only discounting remains. */
  lemma WeightsSum(p: Params, r: real)
    requires Valid(p)
    ensures Lower(p, r) + Centre(p, r) + Upper(p, r) == -r
  {
  }

  /** On a constant row the operator is pure discounting. */
  lemma ApplyConstant(p: Params, r: real, v: real)
    requires Valid(p)
    ensures Apply(p, r, v, v, v) == -r * v
  {
    WeightsSum(p, r);
    assert Apply(p, r, v, v, v) == (Lower(p, r) + Centre(p, r) + Upper(p, r)) * v;
  }

  /** The operator is linear in the three stencil values. */
  lemma ApplyLinear(p: Params, r: real, u: real, um: real, up: real, v: real, vm: real, vp: real, w: real)
    requires Valid(p)
    ensures Apply(p, r, um + w * vm, u + w * v, up + w * vp)
         == Apply(p, r, um, u, up) + w * Apply(p, r, vm, v, vp)
  {
    var l, c, h := Lower(p, r), Centre(p, r), Upper(p, r);
    calc {
      l * (um + w * vm) + c * (u + w * v) + h * (up + w * vp);
      (l * um + c * u + h * up) + w * (l * vm + c * v + h * vp);
    }
  }

  /** The difference quotients and the stencil weights define the same
      operator. */
  lemma QuotientsAreStencil(p: Params, r: real, qm: real, q: real, qp: real)
    requires Valid(p)
    ensures Quotients(p, r, qm, q, qp) == Apply(p, r, qm, q, qp)
  {
    CentredDrift(p.kappa * (p.gamma - r), Dr(p), qm, qp);
    CentredDiffusion(Sq(p.sigma), Sq(Dr(p)), qm, q, qp);
  }

  /** k times the centred first difference splits into the two drift
      weights. */
  lemma CentredDrift(k: real, h: real, qm: real, qp: real)
    requires h > 0.0
    ensures k * ((qp - qm) / (2.0 * h)) == (k / (2.0 * h)) * qp - (k / (2.0 * h)) * qm
  {
  }

  /** Half s2 times the second difference splits into the diffusion
      weights of the three nodes. */
  lemma CentredDiffusion(s2: real, h2: real, qm: real, q: real, qp: real)
    requires h2 != 0.0
    ensures 0.5 * s2 * ((qp - 2.0 * q + qm) / h2)
         == (s2 / (2.0 * h2)) * qp + (s2 / (2.0 * h2)) * qm - 2.0 * (s2 / (2.0 * h2)) * q
  {
  }
}
