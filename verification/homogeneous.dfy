/** Integer 4x4 homogeneous transforms of the scanner-registration solver
    (day19/main.py): a 3x3 rotation block R, a translation column t and the
    bottom row [0, 0, 0, 1], with `invert_h` and the matrix product `@`. */
module Homogeneous {

  predicate IsSquare(m: seq<seq<int>>, n: nat)
  {
    |m| == n && forall i | 0 <= i < n :: |m[i]| == n
  }

  type Mat3 = m: seq<seq<int>> | IsSquare(m, 3) witness [[1, 0, 0], [0, 1, 0], [0, 0, 1]]
  type Mat4 = m: seq<seq<int>> | IsSquare(m, 4) witness [[1, 0, 0, 0], [0, 1, 0, 0], [0, 0, 1, 0], [0, 0, 0, 1]]
  type Vec3 = v: seq<int> | |v| == 3 witness [0, 0, 0]

  /** `np.eye(4)`. */
  function Identity(): Mat4
  {
    [[1, 0, 0, 0], [0, 1, 0, 0], [0, 0, 1, 0], [0, 0, 0, 1]]
  }

  function Identity3(): Mat3
  {
    [[1, 0, 0], [0, 1, 0], [0, 0, 1]]
  }

  /** The product `a @ b` of two 4x4 matrices. */
  function MatMul(a: Mat4, b: Mat4): Mat4
  {
    seq(4, i requires 0 <= i < 4 => seq(4, j requires 0 <= j < 4 =>
      a[i][0] * b[0][j] + a[i][1] * b[1][j] + a[i][2] * b[2][j] + a[i][3] * b[3][j]))
  }

  function Mul3(a: Mat3, b: Mat3): Mat3
  {
    seq(3, i requires 0 <= i < 3 => seq(3, j requires 0 <= j < 3 =>
      a[i][0] * b[0][j] + a[i][1] * b[1][j] + a[i][2] * b[2][j]))
  }

  function Apply3(a: Mat3, v: Vec3): Vec3
  {
    seq(3, i requires 0 <= i < 3 => a[i][0] * v[0] + a[i][1] * v[1] + a[i][2] * v[2])
  }

  function Transpose3(a: Mat3): Mat3
  {
    seq(3, i requires 0 <= i < 3 => seq(3, j requires 0 <= j < 3 => a[j][i]))
  }

  function Neg(v: Vec3): Vec3
  {
    seq(3, i requires 0 <= i < 3 => -v[i])
  }

  function Add(u: Vec3, v: Vec3): Vec3
  {
    seq(3, i requires 0 <= i < 3 => u[i] + v[i])
  }

  /** `h[:-1, :-1]`: the rotation block. */
  function Rot(h: Mat4): Mat3
  {
    seq(3, i requires 0 <= i < 3 => seq(3, j requires 0 <= j < 3 => h[i][j]))
  }

  /** `h[:-1, -1]`: the translation column. */
  function Trans(h: Mat4): Vec3
  {
    seq(3, i requires 0 <= i < 3 => h[i][3])
  }

  /** The homogeneous matrix with rotation block `r`, translation `t` and bottom row [0, 0, 0, 1]. */
  function Assemble(r: Mat3, t: Vec3): (h: Mat4)
    ensures Rot(h) == r && Trans(h) == t && h[3] == [0, 0, 0, 1]
  {
    var h: Mat4 := seq(4, i requires 0 <= i < 4 => seq(4, j requires 0 <= j < 4 =>
      if i < 3 && j < 3 then r[i][j] else if i < 3 then t[i] else if j < 3 then 0 else 1));
    Ext3(Rot(h), r);
    h
  }

  lemma Ext3(a: Mat3, b: Mat3)
    requires forall i, j | 0 <= i < 3 && 0 <= j < 3 :: a[i][j] == b[i][j]
    ensures a == b
  {
    forall i | 0 <= i < 3
      ensures a[i] == b[i]
    {
    }
  }

  lemma Ext4(a: Mat4, b: Mat4)
    requires forall i, j | 0 <= i < 4 && 0 <= j < 4 :: a[i][j] == b[i][j]
    ensures a == b
  {
    forall i | 0 <= i < 4
      ensures a[i] == b[i]
    {
    }
  }

  /** Both products of the block with its transpose are the identity. */
  predicate Orthonormal(r: Mat3)
  {
    Mul3(Transpose3(r), r) == Identity3() && Mul3(r, Transpose3(r)) == Identity3()
  }

  /** A rigid motion: an orthonormal rotation block over the bottom row [0, 0, 0, 1]. */
  predicate Rigid(h: Mat4)
  {
    h[3] == [0, 0, 0, 1] && Orthonormal(Rot(h))
  }

  /** `invert_h`: the transposed rotation block beside the column -R^T t, over
      the row [0, 0, 0, 1]. */
  function InvertH(h: Mat4): (g: Mat4)
    ensures g[3] == [0, 0, 0, 1]
    ensures Rigid(h) ==> Rigid(g)
  {
    var rt := Transpose3(Rot(h));
    Ext3(Transpose3(rt), Rot(h));
    Assemble(rt, Neg(Apply3(rt, Trans(h))))
  }

  /** A matrix with bottom row [0, 0, 0, 1] is assembled from its blocks. */
  lemma Reassemble(h: Mat4)
    requires h[3] == [0, 0, 0, 1]
    ensures Assemble(Rot(h), Trans(h)) == h
  {
    Ext4(Assemble(Rot(h), Trans(h)), h);
  }

  /** Composing two homogeneous matrices multiplies the rotation blocks and
      moves the second translation by the first motion. */
  lemma ComposeAssembled(r1: Mat3, t1: Vec3, r2: Mat3, t2: Vec3)
    ensures MatMul(Assemble(r1, t1), Assemble(r2, t2)) == Assemble(Mul3(r1, r2), Add(Apply3(r1, t2), t1))
  {
    var a, b := Assemble(r1, t1), Assemble(r2, t2);
    var lhs, rhs := MatMul(a, b), Assemble(Mul3(r1, r2), Add(Apply3(r1, t2), t1));
    forall i, j | 0 <= i < 4 && 0 <= j < 4
      ensures lhs[i][j] == rhs[i][j]
    {
      assert lhs[i][j] == a[i][0] * b[0][j] + a[i][1] * b[1][j] + a[i][2] * b[2][j] + a[i][3] * b[3][j];
      assert b[3][j] == if j < 3 then 0 else 1;
    }
    Ext4(lhs, rhs);
  }

  /** Applying `s` and then `r` is applying their product, one coordinate at a time. */
  lemma ApplyMul(r: Mat3, s: Mat3, v: Vec3, i: nat)
    requires i < 3
    ensures Apply3(r, Apply3(s, v))[i] == Apply3(Mul3(r, s), v)[i]
  {
    var u, m := Apply3(s, v), Mul3(r, s);
    assert u[0] == s[0][0] * v[0] + s[0][1] * v[1] + s[0][2] * v[2];
    assert u[1] == s[1][0] * v[0] + s[1][1] * v[1] + s[1][2] * v[2];
    assert u[2] == s[2][0] * v[0] + s[2][1] * v[1] + s[2][2] * v[2];
    assert m[i][0] == r[i][0] * s[0][0] + r[i][1] * s[1][0] + r[i][2] * s[2][0];
    assert m[i][1] == r[i][0] * s[0][1] + r[i][1] * s[1][1] + r[i][2] * s[2][1];
    assert m[i][2] == r[i][0] * s[0][2] + r[i][1] * s[1][2] + r[i][2] * s[2][2];
  }

  /** Applying `s` and then `r` to a vector returns it when r s is the identity. */
  lemma ApplyTwice(r: Mat3, s: Mat3, v: Vec3)
    requires Mul3(r, s) == Identity3()
    ensures Apply3(r, Apply3(s, v)) == v
  {
    var w := Apply3(r, Apply3(s, v));
    forall i | 0 <= i < 3
      ensures w[i] == v[i]
    {
      ApplyMul(r, s, v, i);
      assert Apply3(Identity3(), v)[i] == v[i];
    }
  }

  /** A linear map commutes with negation. */
  lemma ApplyNeg(r: Mat3, v: Vec3)
    ensures Apply3(r, Neg(v)) == Neg(Apply3(r, v))
  {
    var a, b, n := Apply3(r, Neg(v)), Apply3(r, v), Neg(v);
    forall i | 0 <= i < 3
      ensures a[i] == -b[i]
    {
      assert a[i] == r[i][0] * n[0] + r[i][1] * n[1] + r[i][2] * n[2];
      assert r[i][0] * n[0] == -(r[i][0] * v[0]);
      assert r[i][1] * n[1] == -(r[i][1] * v[1]);
      assert r[i][2] * n[2] == -(r[i][2] * v[2]);
    }
  }

  lemma IdentityAssembled()
    ensures Assemble(Identity3(), [0, 0, 0]) == Identity()
  {
    Ext4(Assemble(Identity3(), [0, 0, 0]), Identity());
  }

  /** `invert_h(h) @ h` is the identity for a rigid motion. */
  lemma InvertLeft(h: Mat4)
    requires Rigid(h)
    ensures MatMul(InvertH(h), h) == Identity()
  {
    var r, t := Rot(h), Trans(h);
    var rt := Transpose3(r);
    var u := Apply3(rt, t);
    Reassemble(h);
    ComposeAssembled(rt, Neg(u), r, t);
    assert Add(u, Neg(u)) == [0, 0, 0];
    IdentityAssembled();
  }

  /** `h @ invert_h(h)` is the identity for a rigid motion. */
  lemma InvertRight(h: Mat4)
    requires Rigid(h)
    ensures MatMul(h, InvertH(h)) == Identity()
  {
    var r, t := Rot(h), Trans(h);
    var rt := Transpose3(r);
    var u := Apply3(rt, t);
    Reassemble(h);
    ComposeAssembled(r, t, rt, Neg(u));
    ApplyNeg(r, u);
    ApplyTwice(r, rt, t);
    assert Add(Neg(t), t) == [0, 0, 0];
    IdentityAssembled();
  }

  /** Inverting twice gives back a rigid motion. */
  lemma InvertInvolution(h: Mat4)
    requires Rigid(h)
    ensures InvertH(InvertH(h)) == h
  {
    var r, t := Rot(h), Trans(h);
    var rt := Transpose3(r);
    var u := Apply3(rt, t);
    Ext3(Transpose3(rt), r);
    ApplyNeg(r, u);
    ApplyTwice(r, rt, t);
    assert Neg(Neg(t)) == t;
    Reassemble(h);
  }

  /** The identity is neutral for the product. */
  lemma MatMulIdentity(h: Mat4)
    ensures MatMul(Identity(), h) == h && MatMul(h, Identity()) == h
  {
    forall i, j | 0 <= i < 4 && 0 <= j < 4
      ensures MatMul(Identity(), h)[i][j] == h[i][j]
    {
      IdentityLeftAt(h, i, j);
    }
    forall i, j | 0 <= i < 4 && 0 <= j < 4
      ensures MatMul(h, Identity())[i][j] == h[i][j]
    {
      IdentityRightAt(h, i, j);
    }
    Ext4(MatMul(Identity(), h), h);
    Ext4(MatMul(h, Identity()), h);
  }

  lemma IdentityLeftAt(h: Mat4, i: nat, j: nat)
    requires i < 4 && j < 4
    ensures MatMul(Identity(), h)[i][j] == h[i][j]
  {
    var e := Identity();
    assert MatMul(e, h)[i][j] == e[i][0] * h[0][j] + e[i][1] * h[1][j] + e[i][2] * h[2][j] + e[i][3] * h[3][j];
    if i == 0 {
      assert e[0] == [1, 0, 0, 0];
    } else if i == 1 {
      assert e[1] == [0, 1, 0, 0];
    } else if i == 2 {
      assert e[2] == [0, 0, 1, 0];
    } else {
      assert e[3] == [0, 0, 0, 1];
    }
  }

  lemma IdentityRightAt(h: Mat4, i: nat, j: nat)
    requires i < 4 && j < 4
    ensures MatMul(h, Identity())[i][j] == h[i][j]
  {
    var e := Identity();
    assert MatMul(h, e)[i][j] == h[i][0] * e[0][j] + h[i][1] * e[1][j] + h[i][2] * e[2][j] + h[i][3] * e[3][j];
    assert e[0][j] == if j == 0 then 1 else 0;
    assert e[1][j] == if j == 1 then 1 else 0;
    assert e[2][j] == if j == 2 then 1 else 0;
    assert e[3][j] == if j == 3 then 1 else 0;
  }
}
